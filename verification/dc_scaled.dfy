// Decimals in dc: an integer mantissa with a scale of 0..99 decimal places, and the operators on them.

/** removc, removr, eqk, dscale and the commands built on them in sys/src/cmd/dc.c. */
module DcScaled {
  import opened DcNumber
  import opened DcBlock
  import opened DcArith
  import opened DcDivide
  import DcRoot

  // ----- truncating division of integers -----------------------------------

  /** x / y rounded towards zero. */
  function Quot(x: int, y: int): int
    requires y != 0
  {
    if (x < 0) == (y < 0) then Abs(x) / Abs(y) else -(Abs(x) / Abs(y))
  }

  lemma QuotIsDivision(x: int, y: int)
    requires y != 0
    ensures IsDivision(x, y, Quot(x, y), x - Quot(x, y) * y)
  {
    var q, r := Abs(x) / Abs(y), Abs(x) % Abs(y);
    assert Abs(x) == r + Abs(y) * q;
    SignedDivision(x, y, q, r);
    var q' := if (x < 0) != (y < 0) then -q else q;
    assert Quot(x, y) == q';
  }

  lemma QuotUnique(x: int, y: int, q: int, r: int)
    requires y != 0 && IsDivision(x, y, q, r)
    ensures q == Quot(x, y)
  {
    QuotIsDivision(x, y);
    DivisionUnique(x, y, q, r, Quot(x, y), x - Quot(x, y) * y);
  }

  /** Dividing twice is dividing by the product. */
  lemma DivDiv(v: nat, a: int, b: int)
    requires a > 0 && b > 0
    ensures a * b > 0 && v / (a * b) == (v / a) / b
  {
    var q, r := v / a, v % a;
    var q', r' := q / b, q % b;
    assert v == a * q + r && q == b * q' + r';
    var rest := a * r' + r;
    assert v == (a * b) * q' + rest by { assert a * (b * q' + r') == (a * b) * q' + a * r'; }
    assert 0 <= rest < a * b by { MulMonotone(r', b - 1, a); MulMonotone(0, r', a); }
    DivisionIs(v, a * b, q', rest);
  }

  lemma DivisionIs(v: int, d: int, q: int, r: int)
    requires d > 0 && v == d * q + r && 0 <= r < d
    ensures v / d == q && v % d == r
  {
    var q1, r1 := v / d, v % d;
    assert v == d * q1 + r1;
    if q1 < q {
      MulMonotone(q1 + 1, q, d);
    } else if q1 > q {
      MulMonotone(q + 1, q1, d);
    }
  }

  lemma QuotQuot(x: int, a: int, y: int)
    requires a > 0 && y != 0
    ensures a * y != 0 && Quot(Quot(x, a), y) == Quot(x, a * y)
  {
    DivDiv(Abs(x), a, Abs(y));
    assert Abs(a * y) == a * Abs(y);
    assert y < 0 <==> a * y < 0;
    if Abs(x) / a == 0 {
      assert 0 / Abs(y) == 0;
    }
  }

  lemma QuotCancel(x: int, y: int, c: int)
    requires c > 0 && y != 0
    ensures y * c != 0 && Quot(x * c, y * c) == Quot(x, y)
  {
    QuotIsDivision(x, y);
    var q, r := Quot(x, y), x - Quot(x, y) * y;
    DivisionScales(x, y, q, r, c);
    QuotUnique(x * c, y * c, q, r * c);
  }

  lemma DivisionScales(x: int, y: int, q: int, r: int, c: int)
    requires c > 0 && y != 0 && IsDivision(x, y, q, r)
    ensures y * c != 0 && IsDivision(x * c, y * c, q, r * c)
  {
    ProductScales(q, y, r, c);
    SignScales(x, c);
    SignScales(y, c);
    SignScales(r, c);
    MulLess(Abs(r), Abs(y), c);
  }

  lemma ProductScales(q: int, y: int, r: int, c: int)
    ensures (q * y + r) * c == q * (y * c) + r * c
  {
  }

  lemma SignScales(x: int, c: int)
    requires c > 0
    ensures (x * c < 0 <==> x < 0) && (x * c == 0 <==> x == 0) && Abs(x * c) == Abs(x) * c
  {
    if x < 0 {
      MulLess(x, 0, c);
    } else if x > 0 {
      MulLess(0, x, c);
    }
  }

  // ----- removc ------------------------------------------------------------

  /** What removc leaves: n / 2 digits are dropped outright, and a last odd place by dividing by ten. */
  function Kept(s: seq<int>, n: nat): int {
    var w := if n / 2 <= |s| then Val(s[n / 2..]) else 0;
    if n % 2 == 1 then Quot(w, 10) else w
  }

  /**
   * When dropping places does not truncate: a complement loses nonzero digits, and a division by ten that might
   * follow does not absorb the difference.
   */
  predicate DropsWrongly(s: seq<int>, n: nat) {
    && Negative(s) && n / 2 < |s|
    && Val(s[..n / 2]) != 0
    && (n % 2 == 1 ==> Val(s[n / 2..]) % 10 == 0)
  }

  /** removc truncates exactly when it does not drop nonzero digits of a complement; otherwise it is one too low. */
  lemma KeptIsTruncation(s: seq<int>, n: nat)
    requires Number(s)
    ensures Kept(s, n) == Quot(Val(s), Ten(n)) - if DropsWrongly(s, n) then 1 else 0
  {
    SignOfNumber(s);
    TenOfHalves(n);
    if n / 2 < |s| {
      KeptOfLong(s, n / 2, n % 2 == 1);
    } else {
      KeptOfShort(s, n);
    }
  }

  /** Every digit is dropped: the value was below the weight divided by. */
  lemma KeptOfShort(s: seq<int>, n: nat)
    requires Number(s) && n / 2 >= |s| && Ten(n) >= Pow(n / 2)
    ensures Kept(s, n) == 0 == Quot(Val(s), Ten(n))
  {
    ShortNumber(s);
    PowMonotone(|s|, n / 2);
    SmallQuotient(Val(s), Ten(n));
    if n / 2 == |s| {
      assert s[|s|..] == [];
    }
    SmallQuotient(0, 10);
  }

  lemma KeptOfLong(s: seq<int>, d: nat, odd: bool)
    requires Number(s) && d < |s|
    ensures var w := Val(s[d..]);
            (if odd then Quot(w, 10) else w) == Quot(Val(s), if odd then 10 * Pow(d) else Pow(d)) -
            if Negative(s) && Val(s[..d]) != 0 && (odd ==> w % 10 == 0) then 1 else 0
  {
    CutSign(s, d);
    ValSplit(s, d);
    ValBound(s[..d]);
    TruncatedSplit(Val(s), Pow(d), Val(s[..d]), Val(s[d..]), odd);
  }

  /** The sign is in the digits above a cut. */
  lemma CutSign(s: seq<int>, d: nat)
    requires Number(s) && d < |s|
    ensures (Negative(s) <==> Val(s) < 0) && (Val(s) < 0 <==> Val(s[d..]) < 0)
  {
    SignOfNumber(s);
    SignOfNumber(s[d..]);
  }

  lemma TenOfHalves(n: nat)
    ensures Ten(n) == if n % 2 == 1 then 10 * Pow(n / 2) else Pow(n / 2)
  {
    TenIsPow(n / 2);
    assert n == 2 * (n / 2) + n % 2;
  }

  lemma ShortNumber(s: seq<int>)
    requires Number(s)
    ensures -Pow(|s|) < Val(s) < Pow(|s|)
  {
    SignOfNumber(s);
    if Negative(s) {
      ValBound(s[..|s| - 1]);
    } else {
      ValBound(s);
    }
  }

  lemma SmallQuotient(v: int, t: int)
    requires -t < v < t
    ensures Quot(v, t) == 0
  {
    DivisionIs(Abs(v), t, 0, Abs(v));
  }

  /** v = lo + p * w with 0 <= lo < p: cutting off lo against truncating v. */
  lemma TruncatedSplit(v: int, p: int, lo: int, w: int, odd: bool)
    requires p > 0 && 0 <= lo < p && v == lo + p * w && (v < 0 <==> w < 0)
    ensures var kept := if odd then Quot(w, 10) else w;
            kept == Quot(v, if odd then 10 * p else p) - if v < 0 && lo != 0 && (odd ==> w % 10 == 0) then 1 else 0
  {
    TruncatedByWeight(v, p, lo, w);
    QuotQuot(v, p, 10);
    assert 10 * p == p * 10;
    TenthOfTruncated(v, w, lo);
  }

  /** Cutting off lo rounds down. */
  lemma TruncatedByWeight(v: int, p: int, lo: int, w: int)
    requires p > 0 && 0 <= lo < p && v == lo + p * w && (v < 0 <==> w < 0)
    ensures Quot(v, p) == if v < 0 && lo != 0 then w + 1 else w
  {
    if v >= 0 {
      DivisionIs(v, p, w, lo);
    } else if lo == 0 {
      assert -v == p * (-w);
      DivisionIs(-v, p, -w, 0);
    } else {
      assert -v == p * (-w - 1) + (p - lo);
      DivisionIs(-v, p, -w - 1, p - lo);
    }
  }

  /** Dividing what was rounded down or up by ten: only at a multiple of ten does it show. */
  lemma TenthOfTruncated(v: int, w: int, lo: int)
    requires v < 0 <==> w < 0
    ensures Quot(w, 10) ==
            Quot(if v < 0 && lo != 0 then w + 1 else w, 10) - if v < 0 && lo != 0 && w % 10 == 0 then 1 else 0
  {
  }

  /** DropsWrongly in terms of the value: it is negative, and dropping n places of it rounds down. */
  predicate RoundsDown(v: int, n: nat) {
    && v < 0 && v % Pow(n / 2) != 0 && (n >= 2 ==> -v > Pow(n / 2 - 1))
    && (n % 2 == 1 ==> v / Pow(n / 2) % 10 == 0)
  }

  /** A complement has more than d digits exactly when it reaches beyond the weight of digit d - 1. */
  lemma LengthOfComplement(s: seq<int>, d: nat)
    requires Shortest(s) && Negative(s) && d > 0
    ensures d < |s| <==> -Val(s) > Pow(d - 1)
  {
    var n := |s| - 1;
    ValBound(s[..n]);
    if d > n {
      PowMonotone(n, d - 1);
    } else {
      PowMonotone(d - 1, n - 1);
      TopDigitBound(s[..n]);
      assert s[..n][n - 1] == s[n - 1] <= 98;
      MulMonotone(s[n - 1] + 1, 99, Pow(n - 1));
    }
  }

  lemma DropsByValue(s: seq<int>, n: nat)
    requires Shortest(s)
    ensures DropsWrongly(s, n) <==> RoundsDown(Val(s), n)
  {
    SignOfNumber(s);
    var d := n / 2;
    if Negative(s) && d > 0 {
      LengthOfComplement(s, d);
    }
    if d < |s| {
      ValSplit(s, d);
      ValBound(s[..d]);
      DivisionIs(Val(s), Pow(d), Val(s[d..]), Val(s[..d]));
    }
  }

  /** The digits from the cursor on, in a fresh block. */
  method CopyRest(p: Blk) returns (q: Blk)
    requires p.rd <= |p.buf| && Signed(p.buf)
    modifies p`rd
    ensures fresh(q) && q.buf == p.buf[old(p.rd)..]
  {
    q := new Blk(2);
    ghost var from := p.rd;
    while !p.AtEnd()
      invariant from <= p.rd <= |p.buf| && q.buf == p.buf[from..p.rd]
      decreases |p.buf| - p.rd
    {
      var c := p.GetC();
      q.PutC(c);
    }
  }

  /** Division by ten. */
  method Tenth(q: Blk, tenptr: Blk, divxyz: Blk) returns (s: Blk, rem: Blk)
    requires q != tenptr && q != divxyz && tenptr != divxyz
    requires Number(q.buf) && tenptr.buf == [10]
    modifies tenptr`rd, divxyz
    ensures fresh(s) && fresh(rem) && s != rem && Normal(s.buf) && Number(rem.buf)
    ensures Normal(q.buf) ==> Normal(rem.buf)
    ensures Val(s.buf) == Quot(Val(q.buf), 10) && IsDivision(Val(q.buf), 10, Val(s.buf), Val(rem.buf))
  {
    assert Val(tenptr.buf) == 10 by { assert tenptr.buf[..0] == []; assert Pow(0) == 1; }
    var rest;
    s, rest := Div(q, tenptr, divxyz);
    rem := rest;
    QuotUnique(Val(q.buf), 10, Val(s.buf), Val(rem.buf));
  }

  /** The first loop of removc: over one digit for every two places. */
  method SkipPairs(p: Blk, n: nat)
    modifies p`rd
    ensures p.rd == if n / 2 <= |p.buf| then n / 2 else |p.buf|
  {
    p.Rewind();
    for i := 0 to n / 2
      invariant p.rd == if i <= |p.buf| then i else |p.buf|
    {
      p.SkipC();
    }
  }

  /** removc: drops n decimal places. */
  method RemovC(p: Blk, n: nat, tenptr: Blk, divxyz: Blk) returns (q: Blk)
    requires p != tenptr && p != divxyz && tenptr != divxyz
    requires Number(p.buf) && tenptr.buf == [10]
    modifies p`rd, tenptr`rd, divxyz
    ensures fresh(q) && Number(q.buf) && Val(q.buf) == Kept(p.buf, n)
    ensures Val(q.buf) == Quot(Val(p.buf), Ten(n)) - if DropsWrongly(p.buf, n) then 1 else 0
    ensures Normal(p.buf) ==> Normal(q.buf)
  {
    KeptIsTruncation(p.buf, n);
    SkipPairs(p, n);
    q := CopyRest(p);
    if n % 2 == 1 {
      var rem;
      q, rem := Tenth(q, tenptr, divxyz);
    }
  }

  // ----- removr ------------------------------------------------------------

  /** k complement marks. */
  function Marks(k: nat): (s: seq<int>)
    ensures |s| == k && Signed(s)
  {
    if k == 0 then [] else Marks(k - 1) + [-1]
  }

  /** The first j digits as removr's loop collects them: past the end sgetc keeps yielding -1. */
  function Taken(s: seq<int>, j: nat): seq<int> {
    if j <= |s| then s[..j] else s + Marks(j - |s|)
  }

  lemma {:induction false} MarksAreNegative(s: seq<int>, k: nat)
    ensures Val(s + Marks(k)) <= Val(s)
    ensures k > 0 ==> Val(s + Marks(k)) < Val(s)
  {
    if k == 0 {
      assert s + Marks(0) == s;
    } else {
      MarksAreNegative(s, k - 1);
      assert s + Marks(k) == (s + Marks(k - 1)) + [-1];
      ValSnoc(s + Marks(k - 1), -1);
    }
  }

  /** A magnitude has at least j digits exactly when it reaches the weight of digit j - 1. */
  predicate Reaches(v: int, j: nat) {
    j == 0 || Abs(v) >= Pow(j - 1)
  }

  lemma LengthOfMagnitude(s: seq<int>, j: nat)
    requires Normal(s) && Digits(s)
    ensures |s| >= j <==> Reaches(Val(s), j)
  {
    ValBound(s);
    if j > 0 {
      if |s| >= j {
        TopDigitBound(s);
        PowMonotone(j - 1, |s| - 1);
      } else {
        PowMonotone(|s|, j - 1);
      }
    }
  }

  /** The loop of removr that moves j digits of p into a fresh block. */
  method TakeDigits(p: Blk, j: nat) returns (q: Blk)
    requires Digits(p.buf)
    modifies p`rd
    ensures fresh(q) && q.buf == Taken(p.buf, j) && p.rd == if j <= |p.buf| then j else |p.buf|
  {
    p.Rewind();
    q := new Blk(j);
    for i := 0 to j
      invariant p.rd == if i <= |p.buf| then i else |p.buf|
      invariant q.buf == Taken(p.buf, i)
    {
      var c := p.GetC();
      q.PutC(c);
      assert Taken(p.buf, i + 1) == Taken(p.buf, i) + [c];
    }
  }

  /** Appends the only digit of rem, if there is one. */
  method MoveDigit(rem: Blk, irem: Blk)
    requires rem != irem && |rem.buf| <= 1 && (rem.buf != [] ==> 0 <= rem.buf[0] < 10)
    modifies rem`rd, irem
    ensures irem.buf == old(irem.buf) + rem.buf
  {
    rem.Rewind();
    if !rem.AtEnd() {
      var c := rem.GetC();
      irem.PutC(c);
    }
  }

  /** The odd place of removr: r becomes a tenth of itself, its last digit goes to the places removed. */
  method OddPlace(r: Blk, irem: Blk, tenptr: Blk, divxyz: Blk, ghost s: seq<int>, ghost n: nat) returns (t: Blk)
    requires r != tenptr && r != divxyz && tenptr != divxyz && irem != tenptr && irem != divxyz && irem != r
    requires Digits(s) && Normal(s) && n % 2 == 1 && irem.buf == Taken(s, n / 2)
    requires r.buf == s[if n / 2 <= |s| then n / 2 else |s|..] && tenptr.buf == [10]
    modifies irem, tenptr`rd, divxyz
    ensures fresh(t) && Normal(t.buf) && Signed(irem.buf)
    ensures SplitsOff(s, n, Val(t.buf), irem.buf)
  {
    TailIsNormal(s, r.buf, n / 2);
    var rem;
    t, rem := Tenth(r, tenptr, divxyz);
    SingleDigit(rem.buf, Val(r.buf), Val(t.buf));
    SplitOdd(s, n, r.buf, Val(t.buf), rem.buf);
    assert Signed(Taken(s, n / 2));
    MoveDigit(rem, irem);
  }

  /** removr on a nonnegative number: the quotient by 10^n, and the digits removed. */
  method SplitPlaces(p: Blk, n: nat, tenptr: Blk, divxyz: Blk) returns (r: Blk, irem: Blk)
    requires p != tenptr && p != divxyz && tenptr != divxyz
    requires Normal(p.buf) && Digits(p.buf) && tenptr.buf == [10]
    modifies p`rd, tenptr`rd, divxyz
    ensures fresh(r) && fresh(irem) && r != irem && Normal(r.buf) && Signed(irem.buf)
    ensures SplitsOff(p.buf, n, Val(r.buf), irem.buf)
  {
    irem := TakeDigits(p, n / 2);
    r := CopyRest(p);
    TailIsNormal(p.buf, r.buf, n / 2);
    if n % 2 == 1 {
      r := OddPlace(r, irem, tenptr, divxyz, p.buf, n);
    } else {
      SplitEven(p.buf, n, r.buf);
    }
  }

  lemma TailIsNormal(s: seq<int>, w: seq<int>, j: nat)
    requires Digits(s) && Normal(s) && w == s[if j <= |s| then j else |s|..]
    ensures Digits(w) && Normal(w) && Val(w) >= 0
  {
    ValBound(w);
  }

  /** What SplitPlaces achieves on the digits s. */
  predicate SplitsOff(s: seq<int>, n: nat, r: int, irem: seq<int>) {
    && r == Quot(Val(s), Ten(n))
    && (Val(irem) == Val(s) - r * Ten(n) <==> Reaches(Val(s), n / 2))
  }

  /** A remainder by ten is no digit or a single one. */
  lemma SingleDigit(s: seq<int>, w: int, q: int)
    requires w >= 0 && IsDivision(w, 10, q, Val(s)) && Normal(s)
    ensures 0 <= Val(s) < 10 && |s| <= 1 && q == w / 10 && w == 10 * q + Val(s)
    ensures s != [] ==> 0 <= s[0] < 10
    ensures forall t :: Signed(t) ==> Signed(t + s)
  {
    DcRoot.NonNegativeDivision(w, 10, q, Val(s));
    SignOfNumber(s);
    LengthOfMagnitude(s, 2);
    assert Pow(1) == 100 && Pow(0) == 1;
    if |s| == 1 {
      assert s[..0] == [];
    }
  }

  /** v == lo + p * w with lo below p, as a division by p. */
  lemma SplitByWeight(v: int, p: int, lo: int, w: int)
    requires v >= 0 && v == lo + p * w && 0 <= lo < p
    ensures Quot(v, p) == w && lo == v - w * p
  {
    DivisionIs(v, p, w, lo);
  }

  lemma SplitEven(s: seq<int>, n: nat, w: seq<int>)
    requires Digits(s) && Normal(s) && n % 2 == 0
    requires w == s[if n / 2 <= |s| then n / 2 else |s|..]
    ensures SplitsOff(s, n, Val(w), Taken(s, n / 2))
  {
    var j := n / 2;
    LengthOfMagnitude(s, j);
    TenOfHalves(n);
    ValBound(s);
    if j <= |s| {
      ValSplit(s, j);
      ValBound(s[..j]);
      SplitByWeight(Val(s), Pow(j), Val(s[..j]), Val(w));
    } else {
      NothingLeft(s, j, n);
    }
  }

  lemma SplitOdd(s: seq<int>, n: nat, w: seq<int>, q: int, rem: seq<int>)
    requires Digits(s) && Normal(s) && n % 2 == 1
    requires w == s[if n / 2 <= |s| then n / 2 else |s|..]
    requires Val(w) == 10 * q + Val(rem) && 0 <= Val(rem) < 10 && q >= 0
    ensures SplitsOff(s, n, q, Taken(s, n / 2) + rem)
  {
    var j := n / 2;
    LengthOfMagnitude(s, j);
    TenOfHalves(n);
    if j <= |s| {
      ValConcat(s[..j], rem);
      SplitOddLong(s, j, q, Val(rem));
    } else {
      OddNothingLeft(s, j, n, rem);
    }
  }

  lemma OddNothingLeft(s: seq<int>, j: nat, n: nat, rem: seq<int>)
    requires Digits(s) && |s| < j && Ten(n) >= Pow(j) && Val(rem) == 0
    ensures Quot(Val(s), Ten(n)) == 0 && Val(Taken(s, j) + rem) < Val(s)
  {
    NothingLeft(s, j, n);
    ValConcat(Taken(s, j), rem);
  }

  lemma SplitOddLong(s: seq<int>, j: nat, q: int, d: int)
    requires Digits(s) && j <= |s| && Val(s[j..]) == 10 * q + d && 0 <= d < 10
    ensures Quot(Val(s), 10 * Pow(j)) == q
    ensures Val(s[..j]) + Pow(j) * d == Val(s) - q * (10 * Pow(j))
  {
    ValBound(s);
    ValSplit(s, j);
    ValBound(s[..j]);
    TenfoldQuotient(Val(s), Pow(j), Val(s[..j]), Val(s[j..]), q, d);
  }

  lemma TenfoldQuotient(v: int, p: int, lo: int, w: int, q: int, d: int)
    requires v >= 0 && 0 <= lo < p && v == lo + p * w && w == 10 * q + d && 0 <= d < 10
    ensures Quot(v, 10 * p) == q && lo + p * d == v - q * (10 * p)
  {
    TenfoldSplit(lo, p, q, d);
    SplitByWeight(v, 10 * p, lo + p * d, q);
  }

  lemma TenfoldSplit(lo: int, p: int, q: int, d: int)
    requires 0 <= lo < p && 0 <= d < 10
    ensures lo + p * (10 * q + d) == (lo + p * d) + (10 * p) * q
    ensures 0 <= lo + p * d < 10 * p
  {
    MulMonotone(d, 9, p);
  }

  lemma NothingLeft(s: seq<int>, j: nat, n: nat)
    requires Digits(s) && |s| < j && Ten(n) >= Pow(j)
    ensures Quot(Val(s), Ten(n)) == 0 && Val(Taken(s, j)) < Val(s)
  {
    ValBound(s);
    PowMonotone(|s|, j);
    SmallQuotient(Val(s), Ten(n));
    MarksAreNegative(s, j - |s|);
  }

  /**
   * removr: the quotient of p by 10^n, rounded towards zero, and the places removed. The latter are right
   * exactly when p has at least n / 2 digits.
   */
  method RemovR(p: Blk, n: nat, tenptr: Blk, divxyz: Blk) returns (r: Blk, irem: Blk)
    requires p != tenptr && p != divxyz && tenptr != divxyz
    requires Normal(p.buf) && tenptr.buf == [10]
    modifies p, tenptr`rd, divxyz
    ensures fresh(r) && fresh(irem) && r != irem && Normal(r.buf) && Signed(irem.buf)
    ensures Val(r.buf) == Quot(Val(old(p.buf)), Ten(n))
    ensures Val(irem.buf) == Val(old(p.buf)) - Val(r.buf) * Ten(n) <==> Reaches(Val(old(p.buf)), n / 2)
  {
    ghost var v := Val(p.buf);
    var neg := MakePositive(p);
    r, irem := SplitPlaces(p, n, tenptr, divxyz);
    NegatedSplit(v, Val(r.buf), Val(irem.buf), Ten(n));
    if neg {
      ChSign(r);
      ChSign(irem);
    }
  }

  lemma NegatedSplit(v: int, r: int, irem: int, t: int)
    requires t > 0 && r == Quot(Abs(v), t)
    ensures v < 0 ==> -r == Quot(v, t)
    ensures v < 0 ==> (irem == Abs(v) - r * t <==> -irem == v - (-r) * t)
  {
    assert (-r) * t == -(r * t);
  }
}
