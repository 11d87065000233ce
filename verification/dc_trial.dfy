// How dc's division guesses a quotient digit, and how far the guess can be from the truth.

/** The trial digit of div in sys/src/cmd/dc.c. */
module DcTrial {
  import opened DcNumber

  /** The bound on every temporary digit: a folded dividend digit, a quotient digit or a product digit. */
  const LIMIT := 117

  /** The top j digits of a string as a number, zeros standing in for missing digits. */
  function Lead(s: seq<int>, j: nat): int {
    if j == 0 then 0 else 100 * Lead(s, j - 1) + (if j <= |s| then s[|s| - j] else 0)
  }

  /** The value of the digits below the top j. */
  function Below(s: seq<int>, j: nat): int {
    if j <= |s| then Val(s[..|s| - j]) else 0
  }

  lemma {:induction false} LeadSplits(s: seq<int>, j: nat)
    ensures Pow(j) * Val(s) == Lead(s, j) * Pow(|s|) + Pow(j) * Below(s, j)
  {
    if j == 0 {
      assert s[..|s|] == s;
    } else {
      LeadSplits(s, j - 1);
      var d, r := 0, 0;
      if j <= |s| {
        var n := |s| - j;
        d, r := s[n], Pow(n);
        assert s[..n + 1][..n] == s[..n] && s[..n + 1][n] == d;
        PowAdd(j, n);
        NextLead(Pow(j - 1), Val(s), Lead(s, j - 1), Pow(|s|), Below(s, j), d, r);
      } else {
        RegroupLead(Pow(j - 1), Val(s), Lead(s, j - 1), Pow(|s|));
      }
    }
  }

  /** The top j digits approximate the value from below, to within one unit of the lowest of them. */
  lemma LeadApproximates(s: seq<int>, j: nat)
    requires j > 0 && forall i :: 0 <= i < |s| - 1 ==> 0 <= s[i] < 100
    ensures Lead(s, j) * Pow(|s|) <= Pow(j) * Val(s) < Lead(s, j) * Pow(|s|) + Pow(|s|)
  {
    LeadSplits(s, j);
    if j <= |s| {
      var t := s[..|s| - j];
      ValBound(t);
      PowAdd(j, |t|);
      MulPositive(Pow(j), Val(t), Pow(|t|));
    }
  }

  lemma RegroupLead(p: int, v: int, l: int, q: int)
    requires p * v == l * q
    ensures (100 * p) * v == (100 * l) * q
  {
  }

  lemma MulPositive(a: int, b: int, c: int)
    requires 0 <= b < c && a >= 1
    ensures 0 <= a * b < a * c
  {
  }

  lemma Spread(a: int, b: int, p: int)
    ensures (a + b) * p == a * p + b * p
  {
  }

  lemma NextLead(p: int, v: int, l: int, q: int, w: int, d: int, r: int)
    requires p * v == l * q + p * (w + d * r) && q == 100 * p * r
    ensures (100 * p) * v == (100 * l + d) * q + (100 * p) * w
  {
    calc {
      (100 * p) * v;
      100 * (p * v);
      100 * (l * q) + 100 * (p * (w + d * r));
      { Distribute(p, w, d, r); }
      100 * (l * q) + (100 * p) * w + d * (100 * (p * r));
      { assert 100 * (p * r) == q; }
      100 * (l * q) + (100 * p) * w + d * q;
      { Spread(100 * l, d, q); }
      (100 * l + d) * q + (100 * p) * w;
    }
  }

  // Below, x is the part of the dividend being divided and y the shifted divisor. Both are measured in units u of
  // the lowest leading digit used: n is the leading part of x, and s * y lies between lo * u and hi * u.

  /** d times the divisor exceeds the dividend by at most t units when d * hi exceeds s * n by at most t. */
  lemma NotOver(d: int, hi: int, n: int, t: int, s: int, u: int, x: int, y: int)
    requires d >= 0 && s > 0 && u > 0
    requires s * y <= hi * u && n * u <= x && d * hi <= s * n + t
    ensures d * (s * y) <= s * x + t * u
  {
    MulMonotone(s * y, hi * u, d);
    assert d * (hi * u) == (d * hi) * u;
    MulMonotone(d * hi, s * n + t, u);
    MulMonotone(n * u, x, s);
    assert (s * n + t) * u == s * (n * u) + t * u;
  }

  /** d times the divisor plus t units exceeds the dividend when d * lo + t reaches s * (n + 1). */
  lemma NotUnder(d: int, lo: int, n: int, t: int, s: int, u: int, x: int, y: int)
    requires d >= 0 && s > 0 && u > 0
    requires lo * u <= s * y && x < (n + 1) * u && s * (n + 1) <= d * lo + t
    ensures s * x < d * (s * y) + t * u
  {
    MulMonotone(lo * u, s * y, d);
    assert d * (lo * u) == (d * lo) * u;
    MulMonotone(s * (n + 1), d * lo + t, u);
    assert s * x < s * ((n + 1) * u) == (s * (n + 1)) * u;
    assert (d * lo + t) * u == (d * lo) * u + t * u;
  }

  /** A quotient of leading digits stays within the limit when the dividend is below LIMIT divisors. */
  lemma DigitBound(d: int, lo: int, hi: int, n: int, t: int, s: int, u: int, x: int, y: int)
    requires s > 0 && u > 0 && lo > 0
    requires s * y <= hi * u && n * u <= x && x < LIMIT * y
    requires d * lo <= s * n + t && LIMIT * (hi - lo) + t <= lo
    ensures d <= LIMIT
  {
    MulMonotone(n * u, x, s);
    assert s * x < s * (LIMIT * y) == LIMIT * (s * y) <= LIMIT * (hi * u);
    assert s * (n * u) == (s * n) * u && LIMIT * (hi * u) == (LIMIT * hi) * u;
    Cancel(s * n, LIMIT * hi, u);
    assert d * lo < LIMIT * lo + lo == (LIMIT + 1) * lo;
    Cancel(d, LIMIT + 1, lo);
  }

  lemma Cancel(a: int, b: int, u: int)
    requires u > 0 && a * u < b * u
    ensures a < b
  {
    if b <= a {
      MulMonotone(b, a, u);
    }
  }

  /** What a trial digit must satisfy: before the last one it is never too high and at most one too low. */
  predicate InnerDigit(dig: int, x: int, y: int) {
    0 <= dig <= LIMIT && dig * y <= x && 100 * (x - dig * y) < LIMIT * y
  }

  /** The last trial digit may also be one too high, unless it was lowered as a precaution. */
  predicate LastDigit(dig: int, lowered: bool, x: int, y: int) {
    && 0 <= dig <= LIMIT
    && (if lowered then 0 <= x - dig * y < 2 * y else -y <= x - dig * y < y)
  }

  // A divisor whose top digit is at least 10: key is its two leading digits, d and r the trial division.

  lemma PlainInner(n: int, key: int, u: int, x: int, y: int, d: int, r: int)
    requires u > 0 && key >= 1000 && d >= 0 && 0 <= r <= key && n == d * (key + 1) + r
    requires n * u <= x < (n + 1) * u && key * u <= y <= (key + 1) * u && x < LIMIT * y
    ensures InnerDigit(d, x, y)
  {
    DigitBound(d, key + 1, key + 1, n, 0, 1, u, x, y);
    NotOver(d, key + 1, n, 0, 1, u, x, y);
    assert (d + 1) * key == d * (key + 1) + key - d;
    NotUnder(d + 1, key, n, d + 1, 1, u, x, y);
    MulMonotone(d + 1, LIMIT + 1, u);
    MulMonotone(1000, key, u);
    assert (d + 1) * (1 * y) == d * y + y;
  }

  lemma PlainLast(n: int, key: int, u: int, x: int, y: int, d: int, r: int)
    requires u > 0 && key >= 1000 && d >= 0 && 0 <= r < key && n + 1 == d * key + r
    requires n * u <= x < (n + 1) * u && key * u <= y <= (key + 1) * u && x < LIMIT * y
    ensures LastDigit(d, false, x, y)
  {
    DigitBound(d, key, key + 1, n, 1, 1, u, x, y);
    assert d * (key + 1) == d * key + d;
    NotOver(d, key + 1, n, d + 1, 1, u, x, y);
    assert (d + 1) * key == d * key + key;
    NotUnder(d + 1, key, n, 0, 1, u, x, y);
    MulMonotone(d + 1, LIMIT + 1, u);
    MulMonotone(1000, key, u);
    assert (d + 1) * (1 * y) == d * y + y;
  }

  // A divisor whose top digit is below 10: key is 8/100 of its three leading digits, rounded down.

  /** Eight times the leading part, divided by one more than the key. */
  predicate MagicInnerTrial(n: int, key: int, u: int, x: int, y: int, d: int, r: int) {
    && u > 0 && key >= 800 && d >= 0 && 0 <= r <= key && 8 * n == d * (key + 1) + r
    && n * u <= x < (n + 1) * u && (25 * key) * u <= 200 * y <= (25 * key + 26) * u && x < LIMIT * y
  }

  lemma MagicInnerBound(n: int, key: int, u: int, x: int, y: int, d: int, r: int)
    requires MagicInnerTrial(n, key, u, x, y, d, r)
    ensures d <= LIMIT && 20000 * u <= 200 * y
  {
    assert d * (25 * (key + 1)) == 25 * (d * (key + 1));
    DigitBound(d, 25 * (key + 1), 25 * (key + 1) + 1, n, 0, 200, u, x, y);
    MulMonotone(20000, 25 * key, u);
  }

  /** A digit lowered because its remainder was suspiciously small. */
  lemma MagicInnerLowered(n: int, key: int, u: int, x: int, y: int, d: int, r: int)
    requires MagicInnerTrial(n, key, u, x, y, d, r) && r < 8 && d > 0
    ensures InnerDigit(d - 1, x, y)
  {
    MagicInnerBound(n, key, u, x, y, d, r);
    var a := d * (key + 1);
    assert (d - 1) * (25 * (key + 1) + 1) == 25 * a - 25 * (key + 1) + d - 1;
    NotOver(d - 1, 25 * (key + 1) + 1, n, 0, 200, u, x, y);
    assert d * (25 * key) == 25 * a - 25 * d;
    NotUnder(d, 25 * key, n, 25 * d + 375, 200, u, x, y);
    MulMonotone(25 * d + 375, 3300, u);
    Rescale(d - 1, 1, y);
  }

  lemma Rescale(d: int, e: int, y: int)
    ensures (d + e) * (200 * y) == 200 * (d * y) + e * (200 * y)
    ensures d * (200 * y) == 200 * (d * y)
  {
  }

  lemma MagicInnerKept(n: int, key: int, u: int, x: int, y: int, d: int, r: int)
    requires MagicInnerTrial(n, key, u, x, y, d, r) && (r >= 8 || d == 0)
    ensures InnerDigit(d, x, y)
  {
    MagicInnerBound(n, key, u, x, y, d, r);
    var a := d * (key + 1);
    if d > 0 {
      assert d * (25 * (key + 1) + 1) == 25 * a + d;
      NotOver(d, 25 * (key + 1) + 1, n, 0, 200, u, x, y);
    } else {
      MulMonotone(0, n, u);
    }
    assert (d + 1) * (25 * key) == 25 * a + 25 * key - 25 * d;
    NotUnder(d + 1, 25 * key, n, 25 * d + 200, 200, u, x, y);
    MulMonotone(25 * d + 200, 3125, u);
    Rescale(d, 1, y);
  }

  /** Eight times one more than the leading part, divided by the key. */
  predicate MagicLastTrial(n: int, key: int, u: int, x: int, y: int, d: int, r: int) {
    && u > 0 && key >= 800 && d >= 0 && 0 <= r < key && 8 * (n + 1) == d * key + r
    && n * u <= x < (n + 1) * u && (25 * key) * u <= 200 * y <= (25 * key + 26) * u && x < LIMIT * y
  }

  lemma MagicLastBound(n: int, key: int, u: int, x: int, y: int, d: int, r: int)
    requires MagicLastTrial(n, key, u, x, y, d, r)
    ensures d <= LIMIT && 20000 * u <= 200 * y
    ensures 200 * x < (d + 1) * (200 * y)
  {
    assert d * (25 * key) == 25 * (d * key);
    DigitBound(d, 25 * key, 25 * key + 26, n, 200, 200, u, x, y);
    MulMonotone(20000, 25 * key, u);
    assert (d + 1) * (25 * key) == 25 * (d * key) + 25 * key;
    NotUnder(d + 1, 25 * key, n, 0, 200, u, x, y);
  }

  lemma MagicLastLowered(n: int, key: int, u: int, x: int, y: int, d: int, r: int)
    requires MagicLastTrial(n, key, u, x, y, d, r) && r < 8 && d > 0
    ensures LastDigit(d - 1, true, x, y)
  {
    MagicLastBound(n, key, u, x, y, d, r);
    assert (d - 1) * (25 * key + 26) == 25 * (d * key) - 25 * key + 26 * d - 26;
    NotOver(d - 1, 25 * key + 26, n, 0, 200, u, x, y);
    Rescale(d - 1, 2, y);
  }

  lemma MagicLastKept(n: int, key: int, u: int, x: int, y: int, d: int, r: int)
    requires MagicLastTrial(n, key, u, x, y, d, r)
    ensures LastDigit(d, false, x, y)
  {
    MagicLastBound(n, key, u, x, y, d, r);
    assert d * (25 * key + 26) == 25 * (d * key) + 26 * d;
    NotOver(d, 25 * key + 26, n, 26 * d + 200, 200, u, x, y);
    MulMonotone(26 * d + 200, 3242, u);
    Rescale(d, 1, y);
  }

  // ----- from digit strings to trial digits --------------------------------

  /** A dividend part: digits, except that the top one may hold a folded hundred. */
  predicate Partial(a: seq<int>) {
    && a != [] && 0 <= a[|a| - 1] <= LIMIT
    && forall i :: 0 <= i < |a| - 1 ==> 0 <= a[i] < 100
  }

  /** A divisor: a positive digit string with a nonzero top digit. */
  predicate Divisor(b: seq<int>) {
    b != [] && Digits(b) && b[|b| - 1] > 0
  }

  /** The estimate of the divisor that div computes once, from two or (scaled by 8/100) three leading digits. */
  function Key(b: seq<int>): int
    requires Divisor(b)
  {
    if b[|b| - 1] < 10 then Lead(b, 3) * 2 / 25 else Lead(b, 2)
  }

  /** The trial digit for leading dividend digits n, and whether it was lowered as a precaution. */
  function Guess(n: int, key: int, magic: bool, last: bool): (int, bool)
    requires key > 0
  {
    var td := (if last then n + 1 else n) * (if magic then 8 else 1);
    var cc := if last then key else key + 1;
    var d := td / cc;
    if magic && td % cc < 8 && d > 0 then (d - 1, true) else (d, false)
  }

  lemma LeadNonNegative(s: seq<int>, j: nat)
    requires forall i :: 0 <= i < |s| ==> s[i] >= 0
    ensures Lead(s, j) >= 0
  {
  }

  lemma LeadOfDivisor(b: seq<int>)
    requires Divisor(b)
    ensures Lead(b, 2) >= 100 * b[|b| - 1] && Lead(b, 3) >= 10000 * b[|b| - 1]
    ensures Key(b) >= if b[|b| - 1] < 10 then 800 else 1000
  {
    assert Lead(b, 1) == b[|b| - 1] by { assert Lead(b, 0) == 0; }
    assert Lead(b, 2) >= 100 * Lead(b, 1);
    assert Lead(b, 3) >= 100 * Lead(b, 2);
  }

  /** x in units of its leading three digits. */
  lemma DividendInUnits(a: seq<int>, u: int)
    requires Partial(a) && |a| >= 2 && u == Pow(|a| - 2)
    ensures Lead(a, 3) * u <= 100 * Val(a) < (Lead(a, 3) + 1) * u
  {
    LeadApproximates(a, 3);
    assert Pow(3) == 1000000 by { assert Pow(0) == 1; assert Pow(1) == 100; assert Pow(2) == 10000; }
    assert Pow(|a|) == 100 * Pow(|a| - 1) == 10000 * u;
    assert Lead(a, 3) * (10000 * u) == 10000 * (Lead(a, 3) * u);
    Spread(Lead(a, 3), 1, u);
  }

  /** The shifted divisor in units of its leading two digits. */
  lemma DivisorInUnitsTwo(b: seq<int>, k: nat, u: int)
    requires Divisor(b) && u == Pow(|b| - 1) * Pow(k)
    ensures Lead(b, 2) * u <= 100 * (Val(b) * Pow(k)) <= (Lead(b, 2) + 1) * u
  {
    LeadApproximates(b, 2);
    var w, l := Pow(|b| - 1), Lead(b, 2);
    assert Pow(2) == 10000 by { assert Pow(0) == 1; assert Pow(1) == 100; }
    assert Pow(|b|) == 100 * w;
    assert l * (100 * w) == 100 * (l * w);
    Spread(l, 1, w);
    ShiftBounds(l, w, 100, Val(b), Pow(k));
  }

  /** The shifted divisor in units of its leading three digits. */
  lemma DivisorInUnitsThree(b: seq<int>, k: nat, u: int)
    requires Divisor(b) && u == Pow(|b| - 1) * Pow(k)
    ensures Lead(b, 3) * u <= 10000 * (Val(b) * Pow(k)) <= (Lead(b, 3) + 1) * u
  {
    LeadApproximates(b, 3);
    var w, l := Pow(|b| - 1), Lead(b, 3);
    assert Pow(3) == 1000000 by { assert Pow(0) == 1; assert Pow(1) == 100; assert Pow(2) == 10000; }
    assert Pow(|b|) == 100 * w;
    assert l * (100 * w) == 100 * (l * w);
    Spread(l, 1, w);
    ShiftBounds(l, w, 10000, Val(b), Pow(k));
  }

  lemma ShiftBounds(l: int, w: int, c: int, v: int, e: int)
    requires l * w <= c * v <= (l + 1) * w && e > 0
    ensures l * (w * e) <= c * (v * e) <= (l + 1) * (w * e)
  {
    Shift(l, w, c * v, e);
    Shift'(c * v, l + 1, w, e);
    assert (c * v) * e == c * (v * e);
  }

  lemma Shift(l: int, w: int, v: int, e: int)
    requires l * w <= v && e > 0
    ensures l * (w * e) <= v * e
  {
    MulMonotone(l * w, v, e);
    assert l * (w * e) == (l * w) * e;
  }

  lemma Shift'(v: int, l: int, w: int, e: int)
    requires v <= l * w && e > 0
    ensures v * e <= l * (w * e)
  {
    MulMonotone(v, l * w, e);
    assert l * (w * e) == (l * w) * e;
  }

  /** Twice the three leading digits is 25 keys and a bit. */
  lemma MagicKey(l: int, key: int, u: int, z: int)
    requires u > 0 && key == l * 2 / 25 && l * u <= z <= (l + 1) * u
    ensures (25 * key) * u <= 2 * z <= (25 * key + 26) * u
  {
    assert 25 * key <= 2 * l <= 25 * key + 24;
    MulMonotone(25 * key, 2 * l, u);
    MulMonotone(2 * (l + 1), 25 * key + 26, u);
    assert (2 * l) * u == 2 * (l * u) && (2 * (l + 1)) * u == 2 * ((l + 1) * u);
  }

  /** Neither judgement on a digit depends on the unit of measurement. */
  lemma Homogeneous(dig: int, lowered: bool, x: int, y: int)
    ensures InnerDigit(dig, 100 * x, 100 * y) ==> InnerDigit(dig, x, y)
    ensures LastDigit(dig, lowered, 100 * x, 100 * y) ==> LastDigit(dig, lowered, x, y)
  {
    assert dig * (100 * y) == 100 * (dig * y);
  }

  /** A judgement on the digit guessed for dividend part a and divisor b shifted up by k digits, which is z. */
  predicate GoodGuess(a: seq<int>, b: seq<int>, k: nat, z: int)
    requires Divisor(b) && Key(b) > 0
  {
    var (dig, lowered) := Guess(Lead(a, 3), Key(b), b[|b| - 1] < 10, k == 0);
    if k > 0 then InnerDigit(dig, Val(a), z) else LastDigit(dig, lowered, Val(a), z)
  }

  /** The digit guessed for dividend part a and divisor b, when z is b shifted up by k digits. */
  lemma GuessIsGood(a: seq<int>, b: seq<int>, k: nat, z: int)
    requires Partial(a) && Divisor(b) && |a| == |b| + 1 + k
    requires z == Val(b) * Pow(k) && Val(a) < LIMIT * z
    ensures Key(b) > 0 && GoodGuess(a, b, k, z)
  {
    LeadOfDivisor(b);
    LeadNonNegative(a, 3);
    PowAdd(|b| - 1, k);
    DividendInUnits(a, Pow(|a| - 2));
    if b[|b| - 1] < 10 {
      DivisorInUnitsThree(b, k, Pow(|a| - 2));
      MagicIsGood(a, b, k, z, Pow(|a| - 2));
    } else {
      DivisorInUnitsTwo(b, k, Pow(|a| - 2));
      PlainIsGood(a, b, k, z, Pow(|a| - 2));
    }
  }

  lemma MagicIsGood(a: seq<int>, b: seq<int>, k: nat, z: int, u: int)
    requires Divisor(b) && b[|b| - 1] < 10 && Key(b) >= 800 && Key(b) == Lead(b, 3) * 2 / 25 && u > 0 && Lead(a, 3) >= 0
    requires Lead(a, 3) * u <= 100 * Val(a) < (Lead(a, 3) + 1) * u && Val(a) < LIMIT * z
    requires Lead(b, 3) * u <= 10000 * z <= (Lead(b, 3) + 1) * u
    ensures GoodGuess(a, b, k, z)
  {
    var (dig, lowered) := Guess(Lead(a, 3), Key(b), true, k == 0);
    Homogeneous(dig, lowered, Val(a), z);
    MagicKey(Lead(b, 3), Key(b), u, 10000 * z);
    if k == 0 {
      MagicLastGuess(Lead(a, 3), Key(b), u, 100 * Val(a), 100 * z);
    } else {
      MagicInnerGuess(Lead(a, 3), Key(b), u, 100 * Val(a), 100 * z);
    }
  }

  lemma PlainIsGood(a: seq<int>, b: seq<int>, k: nat, z: int, u: int)
    requires Divisor(b) && b[|b| - 1] >= 10 && Key(b) >= 1000 && Key(b) == Lead(b, 2) && u > 0 && Lead(a, 3) >= 0
    requires Lead(a, 3) * u <= 100 * Val(a) < (Lead(a, 3) + 1) * u && Val(a) < LIMIT * z
    requires Lead(b, 2) * u <= 100 * z <= (Lead(b, 2) + 1) * u
    ensures GoodGuess(a, b, k, z)
  {
    var (dig, lowered) := Guess(Lead(a, 3), Key(b), false, k == 0);
    Homogeneous(dig, lowered, Val(a), z);
    PlainGuess(Lead(a, 3), Key(b), u, 100 * Val(a), 100 * z, k == 0);
  }

  lemma PlainGuess(n: int, key: int, u: int, x: int, y: int, last: bool)
    requires u > 0 && key >= 1000 && n >= 0
    requires n * u <= x < (n + 1) * u && key * u <= y <= (key + 1) * u && x < LIMIT * y
    ensures var (dig, lowered) := Guess(n, key, false, last);
            if last then LastDigit(dig, lowered, x, y) else InnerDigit(dig, x, y)
  {
    if last {
      PlainLast(n, key, u, x, y, (n + 1) / key, (n + 1) % key);
    } else {
      PlainInner(n, key, u, x, y, n / (key + 1), n % (key + 1));
    }
  }

  lemma MagicLastGuess(n: int, key: int, u: int, x: int, y: int)
    requires u > 0 && key >= 800 && n >= 0
    requires n * u <= x < (n + 1) * u && (25 * key) * u <= 200 * y <= (25 * key + 26) * u && x < LIMIT * y
    ensures var (dig, lowered) := Guess(n, key, true, true); LastDigit(dig, lowered, x, y)
  {
    var d, r := (n + 1) * 8 / key, (n + 1) * 8 % key;
    assert MagicLastTrial(n, key, u, x, y, d, r);
    if r < 8 && d > 0 {
      MagicLastLowered(n, key, u, x, y, d, r);
    } else {
      MagicLastKept(n, key, u, x, y, d, r);
    }
  }

  lemma MagicInnerGuess(n: int, key: int, u: int, x: int, y: int)
    requires u > 0 && key >= 800 && n >= 0
    requires n * u <= x < (n + 1) * u && (25 * key) * u <= 200 * y <= (25 * key + 26) * u && x < LIMIT * y
    ensures InnerDigit(Guess(n, key, true, false).0, x, y)
  {
    var d, r := n * 8 / (key + 1), n * 8 % (key + 1);
    assert MagicInnerTrial(n, key, u, x, y, d, r);
    if r < 8 && d > 0 {
      MagicInnerLowered(n, key, u, x, y, d, r);
    } else {
      MagicInnerKept(n, key, u, x, y, d, r);
    }
  }
}
