// factor's trial division over a wheel of 210.

/** factor of sys/src/cmd/factor.c, on the integers that a double holds exactly. */
module Factor {

  // ----- the wheel -------------------------------------------------------------

  const WHSIZ := 48

  const WHEEL: seq<seq<nat>> := [
    [2, 10, 2, 4, 2, 4, 6, 2, 6, 4],
    [2, 4, 6, 6, 2, 6, 4, 2, 6, 4],
    [6, 8, 4, 2, 4, 2, 4, 8, 6, 4],
    [6, 2, 4, 6, 2, 6, 6, 4, 2, 4],
    [6, 2, 6, 4, 2, 4, 2, 10]
  ]

  /** Where the wheel stands, modulo 210, after each step. */
  const PLACE: seq<seq<nat>> := [
    [1, 11, 13, 17, 19, 23, 29, 31, 37, 41],
    [43, 47, 53, 59, 61, 67, 71, 73, 79, 83],
    [89, 97, 101, 103, 107, 109, 113, 121, 127, 131],
    [137, 139, 143, 149, 151, 157, 163, 167, 169, 173],
    [179, 181, 187, 191, 193, 197, 199, 209]
  ]

  function Wheel(i: nat): nat
    requires i < WHSIZ
  {
    WHEEL[i / 10][i % 10]
  }

  function Place(i: nat): nat
    requires i < WHSIZ
  {
    PLACE[i / 10][i % 10]
  }

  predicate Coprime210(k: int) {
    k % 2 != 0 && k % 3 != 0 && k % 5 != 0 && k % 7 != 0
  }

  predicate Factored(k: int) {
    k % 3 == 0 || k % 5 == 0 || k % 7 == 0
  }

  /** Going by w from an odd p leads to q, which is coprime to 210, past odd numbers that are not. */
  predicate Hop(p: int, w: nat, q: int) {
    && p + w == q && Coprime210(q) && p % 2 == 1 && (w == 2 || w == 4 || w == 6 || w == 8 || w == 10)
    && (w > 2 ==> Factored(p + 2)) && (w > 4 ==> Factored(p + 4))
    && (w > 6 ==> Factored(p + 6)) && (w > 8 ==> Factored(p + 8))
  }

  lemma Row0(i: nat)
    requires 0 < i < 10
    ensures Hop(Place(i - 1), Wheel(i), Place(i))
  {
  }

  lemma Row1(i: nat)
    requires 10 <= i < 20
    ensures Hop(Place(i - 1), Wheel(i), Place(i))
  {
  }

  lemma Row2(i: nat)
    requires 20 <= i < 30
    ensures Hop(Place(i - 1), Wheel(i), Place(i))
  {
  }

  lemma Row3(i: nat)
    requires 30 <= i < 40
    ensures Hop(Place(i - 1), Wheel(i), Place(i))
  {
  }

  lemma Row4(i: nat)
    requires 40 <= i < 48
    ensures Hop(Place(i - 1), Wheel(i), Place(i))
  {
  }

  /** Where the wheel stands before its i-th step. */
  function Before(i: nat): nat
    requires i < WHSIZ
  {
    if i == 0 then 209 else Place(i - 1)
  }

  /** Every step goes to the next number that is coprime to 210. */
  lemma WheelHops(i: nat)
    requires i < WHSIZ
    ensures Hop(Before(i), Wheel(i), if i == 0 then 210 + Place(0) else Place(i))
    ensures i == WHSIZ - 1 ==> Place(i) == 209
  {
    if i == 0 {
    } else if i < 10 {
      Row0(i);
    } else if i < 20 {
      Row1(i);
    } else if i < 30 {
      Row2(i);
    } else if i < 40 {
      Row3(i);
    } else {
      Row4(i);
    }
  }

  /** The wheel standing at d before step i, after q turns. */
  predicate OnWheel(d: nat, i: nat, q: nat) {
    i < WHSIZ && d == 210 * q + Before(i)
  }

  lemma Shift2(t: int, k: int)
    ensures (2 * t + k) % 2 == k % 2
  {
  }

  lemma Shift3(t: int, k: int)
    ensures (3 * t + k) % 3 == k % 3
  {
  }

  lemma Shift5(t: int, k: int)
    ensures (5 * t + k) % 5 == k % 5
  {
  }

  lemma Shift7(t: int, k: int)
    ensures (7 * t + k) % 7 == k % 7
  {
  }

  lemma SameRemainders(q: int, k: int)
    ensures Coprime210(210 * q + k) == Coprime210(k)
  {
    Shift2(105 * q, k);
    Shift3(70 * q, k);
    Shift5(42 * q, k);
    Shift7(30 * q, k);
  }

  lemma HopIsNext(p: int, w: nat, q: int, j: nat)
    requires Hop(p, w, q) && 0 < j < w
    ensures !Coprime210(p + j)
  {
    assert j % 2 == 0 ==> j == 2 || j == 4 || j == 6 || j == 8;
  }

  /** The wheel visits every number coprime to 210, and no other. */
  lemma WheelVisits(d: nat, i: nat, q: nat)
    requires OnWheel(d, i, q)
    ensures Coprime210(d + Wheel(i)) && forall k :: d < k < d + Wheel(i) ==> !Coprime210(k)
  {
    var p, w := Before(i), Wheel(i);
    WheelHops(i);
    SameRemainders(q, p + w);
    forall k | d < k < d + w ensures !Coprime210(k) {
      HopIsNext(p, w, p + w, k - d);
      SameRemainders(q, p + (k - d));
    }
  }

  lemma WheelTurns(d: nat, i: nat, q: nat)
    requires OnWheel(d, i, q)
    ensures OnWheel(d + Wheel(i), if i + 1 < WHSIZ then i + 1 else 0, if i == 0 then q + 1 else q)
    ensures 2 <= Wheel(i) <= 10
  {
    WheelHops(i);
  }

  // ----- divisibility ------------------------------------------------------------

  predicate Divides(k: nat, n: nat) {
    k > 0 && n % k == 0
  }

  predicate Prime(p: nat) {
    p >= 2 && forall k :: 2 <= k < p ==> !Divides(k, p)
  }

  lemma MulMonotone(a: nat, b: nat, k: nat)
    requires a <= b
    ensures a * k <= b * k
  {
  }

  lemma RemainderUnique(n: nat, k: nat, q: nat, r: nat)
    requires k > 0 && n == q * k + r && r < k
    ensures n / k == q && n % k == r
  {
    var q' := n / k;
    assert n == q' * k + n % k;
    if q' < q {
      MulMonotone(q' + 1, q, k);
    } else if q < q' {
      MulMonotone(q + 1, q', k);
    }
  }

  lemma DividesProduct(k: nat, m: nat)
    requires k > 0
    ensures Divides(k, m * k) && (m * k) / k == m
  {
    RemainderUnique(m * k, k, m, 0);
  }

  lemma Quotient(k: nat, n: nat)
    requires Divides(k, n)
    ensures n == (n / k) * k
    ensures n > 0 ==> n / k > 0 && k <= n
  {
    if n / k > 0 {
      MulMonotone(1, n / k, k);
    }
  }

  lemma DividesTransitive(a: nat, b: nat, n: nat)
    requires Divides(a, b) && Divides(b, n)
    ensures Divides(a, n)
  {
    Quotient(a, b);
    Quotient(b, n);
    var x, y := n / b, b / a;
    assert n == x * (y * a) == (x * y) * a;
    DividesProduct(a, x * y);
  }

  predicate NoDivisorUpTo(n: nat, d: nat) {
    forall k :: 2 <= k <= d ==> !Divides(k, n)
  }

  /** What is not coprime to 210 need not be tried once 2, 3, 5 and 7 have been. */
  lemma Skipped(n: nat, d: nat, e: nat)
    requires d >= 7 && NoDivisorUpTo(n, d) && forall k :: d < k < e ==> !Coprime210(k)
    ensures forall k :: 2 <= k < e ==> !Divides(k, n)
  {
    forall k | d < k < e ensures !Divides(k, n) {
      if Divides(k, n) {
        assert !Coprime210(k);
        var c := if k % 2 == 0 then 2 else if k % 3 == 0 then 3 else if k % 5 == 0 then 5 else 7;
        assert Divides(c, k);
        DividesTransitive(c, k, n);
      }
    }
  }

  // ----- the factors printed -----------------------------------------------------

  function Product(f: seq<nat>): nat {
    if f == [] then 1 else Product(f[..|f| - 1]) * f[|f| - 1]
  }

  /** Primes in order, none above d. */
  predicate PrimesUpTo(f: seq<nat>, d: nat) {
    && (forall k :: 0 <= k < |f| ==> Prime(f[k]) && f[k] <= d)
    && forall j, k :: 0 <= j < k < |f| ==> f[j] <= f[k]
  }

  /** The factors `out` have been printed, n remains, and every number below d has been tried. */
  predicate Trying(n0: nat, out: seq<nat>, n: nat, d: nat) {
    n > 0 && d > 0 && Product(out) * n == n0 && PrimesUpTo(out, d) && NoDivisorUpTo(n, d - 1)
  }

  lemma DividesOut(n0: nat, out: seq<nat>, n: nat, d: nat)
    requires Trying(n0, out, n, d) && d >= 2 && Divides(d, n)
    ensures Trying(n0, out + [d], n / d, d) && n / d < n
  {
    var m := n / d;
    Quotient(d, n);
    MulMonotone(2, d, m);
    assert d * m == m * d;
    assert (out + [d])[..|out|] == out;
    ProductMoves(Product(out), d, m);
    DividesProduct(m, d);
    forall k | 2 <= k < d ensures !Divides(k, m) && !Divides(k, d) {
      if Divides(k, m) {
        DividesTransitive(k, m, n);
      } else if Divides(k, d) {
        DividesTransitive(k, d, n);
      }
    }
  }

  lemma ProductMoves(a: nat, d: nat, m: nat)
    ensures (a * d) * m == a * (m * d)
  {
  }

  /** Once d is tried, the next number to try is e if all between have been ruled out. */
  lemma TriedUpTo(n0: nat, out: seq<nat>, n: nat, d: nat, e: nat)
    requires Trying(n0, out, n, d) && !Divides(d, n) && d < e
    requires d >= 7 ==> forall k :: d < k < e ==> !Coprime210(k)
    requires d < 7 ==> (d == 2 && e == 3) || (d == 3 && e == 5) || (d == 5 && e == 7)
    ensures Trying(n0, out, n, e)
  {
    assert NoDivisorUpTo(n, d);
    if d >= 7 {
      Skipped(n, d, e);
    } else if e > d + 1 {
      var c := if d == 3 then 2 else 3;
      if Divides(d + 1, n) {
        assert Divides(2, d + 1);
        DividesTransitive(2, d + 1, n);
      }
    }
  }

  lemma SquareTooLarge(k: nat, m: nat, d: nat)
    requires k > d && m > d
    ensures m * k > d * d
  {
    MulMonotone(d, m, k);
    MulMonotone(d, k, d);
    assert d * k == k * d;
    MulMonotone(d + 1, m, k);
  }

  /** What remains when d - 1 is past the square root is 1 or a prime. */
  lemma RestIsPrime(n: nat, d: nat)
    requires n > 1 && d > 0 && NoDivisorUpTo(n, d) && (d - 1) * (d - 1) > n
    ensures Prime(n) && n > d
  {
    assert Divides(n, n);
    forall k | 2 <= k < n ensures !Divides(k, n) {
      if Divides(k, n) {
        var m := n / k;
        Quotient(k, n);
        assert m >= 2;
        assert m * k == k * m;
        DividesProduct(m, k);
        SquareTooLarge(k, m, d - 1);
      }
    }
  }

  // ----- whether the loops end, for numbers of either sign --------------------------

  /** What is left of n, of either sign, once d has been divided out as often as it goes. */
  function DividedOut(n: int, d: nat): (r: int)
    requires n != 0 && d >= 2
    ensures (n > 0 ==> 0 < r <= n) && (n < 0 ==> n <= r < 0)
    decreases if n < 0 then -n else n
  {
    ExactSmaller(n, d);
    if n % d == 0 then DividedOut(n / d, d) else n
  }

  lemma ExactSmaller(n: int, d: nat)
    requires n != 0 && d >= 2
    ensures n % d == 0 ==> (n > 0 ==> 0 < n / d < n) && (n < 0 ==> n < n / d < 0)
  {
    var q := n / d;
    assert n == q * d + n % d;
    if n % d == 0 {
      if q > 0 {
        MulMonotone(2, d, q);
        assert d * q == q * d;
      } else if q < 0 {
        MulMonotone(2, d, -q);
        assert d * -q == -(q * d);
      }
    }
  }

  /** The variables n, d and i of the loop over the wheel. */
  datatype Trial = Trial(n: int, d: nat, i: nat)

  predicate IsTrial(t: Trial) {
    t.n != 0 && t.d > 0 && t.i < WHSIZ
  }

  function Turned(i: nat): nat {
    if i + 1 < WHSIZ then i + 1 else 0
  }

  function NextTrial(t: Trial): (t': Trial)
    requires IsTrial(t)
    ensures IsTrial(t') && t'.d >= t.d + 2 && t'.i == Turned(t.i)
    ensures (t.n > 0 ==> 0 < t'.n <= t.n) && (t.n < 0 ==> t'.n < 0)
  {
    WheelHops(t.i);
    var d := t.d + Wheel(t.i);
    Trial(DividedOut(t.n, d), d, Turned(t.i))
  }

  function Trials(t: Trial, k: nat): (t': Trial)
    requires IsTrial(t)
    ensures IsTrial(t') && t'.d >= t.d + 2 * k
    ensures (t.n > 0 ==> 0 < t'.n <= t.n) && (t.n < 0 ==> t'.n < 0)
  {
    if k == 0 then t else NextTrial(Trials(t, k - 1))
  }

  /** d is above the root of n plus one; the root of a negative number is not a number, and nothing is above it. */
  predicate PastRoot(n: int, d: nat) {
    n >= 0 && (d - 1) * (d - 1) > n
  }

  /** Where the loop over the wheel begins, once 2, 3, 5 and 7 have been divided out. */
  function FirstTrial(n: int): (t: Trial)
    requires n != 0
    ensures IsTrial(t) && t.i == 1 && (n > 0 ==> t.n > 0) && (n < 0 ==> t.n < 0)
  {
    Trial(DividedOut(DividedOut(DividedOut(DividedOut(n, 2), 3), 5), 7), 1, 1)
  }

  /** The variables after k steps of the wheel. */
  predicate Reached(n: int, t: Trial, k: nat) {
    n != 0 && t == Trials(FirstTrial(n), k)
  }

  /** The loop is left after k steps of the wheel. */
  predicate EndsAfter(n: int, k: nat)
    requires n != 0
  {
    var t := Trials(FirstTrial(n), k);
    t.i == 0 && PastRoot(t.n, t.d)
  }

  /** After k steps, for some k from m on, the wheel has come round. */
  lemma ComesRound(t: Trial, m: nat) returns (k: nat)
    requires IsTrial(t)
    ensures k >= m && Trials(t, k).i == 0
  {
    k := m;
    while Trials(t, k).i != 0
      invariant k >= m
      decreases if Trials(t, k).i == 0 then 0 else WHSIZ - Trials(t, k).i
    {
      k := k + 1;
    }
  }

  /** factor comes to an end if and only if its argument is not negative. */
  lemma FactorEnds(n: int)
    ensures (n == 0 || exists k :: EndsAfter(n, k)) <==> n >= 0
  {
    if n > 0 {
      var t := FirstTrial(n);
      var k := ComesRound(t, t.n);
      var t' := Trials(t, k);
      MulMonotone(1, t'.d - 1, t'.d - 1);
      assert EndsAfter(n, k);
    }
  }

  /** A loop that divides d out as often as it goes. */
  method DivideOut(n: nat, d: nat, out: seq<nat>, ghost n0: nat) returns (n': nat, out': seq<nat>)
    requires Trying(n0, out, n, d) && d >= 2
    ensures Trying(n0, out', n', d) && !Divides(d, n') && n' <= n && n' == DividedOut(n, d)
  {
    n', out' := n, out;
    while n' % d == 0
      invariant Trying(n0, out', n', d) && n' <= n && DividedOut(n', d) == DividedOut(n, d)
      decreases n'
    {
      DividesOut(n0, out', n', d);
      out' := out' + [d];
      n' := n' / d;
    }
  }

  /** The four loops before the wheel. */
  method SmallPrimes(n0: nat) returns (n: nat, out: seq<nat>)
    requires n0 > 0
    ensures Trying(n0, out, n, 7) && !Divides(7, n) && n <= n0 && Reached(n0, Trial(n, 1, 1), 0)
  {
    n, out := DivideOut(n0, 2, [], n0);
    TriedUpTo(n0, out, n, 2, 3);
    n, out := DivideOut(n, 3, out, n0);
    TriedUpTo(n0, out, n, 3, 5);
    n, out := DivideOut(n, 5, out, n0);
    TriedUpTo(n0, out, n, 5, 7);
    n, out := DivideOut(n, 7, out, n0);
  }

  /** The last number tried when the wheel stands at d: at the start, 2, 3, 5 and 7 have been tried already. */
  function Tried(d: nat): nat {
    if d == 1 then 7 else d
  }

  /** The state of the loop over the wheel: all has been tried up to where it stands. */
  predicate Wheeling(n0: nat, out: seq<nat>, n: nat, d: nat, i: nat, q: nat) {
    && OnWheel(d, i, q) && (d == 1 ==> i == 1) && (d == 1 || d >= 7)
    && Trying(n0, out, n, Tried(d)) && !Divides(Tried(d), n)
  }

  lemma NextTry(n0: nat, out: seq<nat>, n: nat, d: nat, i: nat, q: nat)
    requires Wheeling(n0, out, n, d, i, q)
    ensures Trying(n0, out, n, d + Wheel(i)) && d + Wheel(i) > 7
  {
    WheelVisits(d, i, q);
    WheelTurns(d, i, q);
    assert Wheel(1) == 10;
    TriedUpTo(n0, out, n, Tried(d), d + Wheel(i));
  }

  /** One step of the wheel. */
  method TryNext(n: nat, out: seq<nat>, d: nat, i: nat, ghost q: nat, ghost k: nat, ghost n0: nat)
    returns (n': nat, out': seq<nat>, d': nat)
    requires Wheeling(n0, out, n, d, i, q) && Reached(n0, Trial(n, d, i), k)
    ensures d' == d + Wheel(i) > d && n' <= n && Reached(n0, Trial(n', d', Turned(i)), k + 1)
    ensures Wheeling(n0, out', n', d', Turned(i), if i == 0 then q + 1 else q)
  {
    NextTry(n0, out, n, d, i, q);
    WheelTurns(d, i, q);
    d' := d + Wheel(i);
    n', out' := DivideOut(n, d', out, n0);
  }

  lemma TurnBound(d: nat, n: nat)
    requires d > 0 && (d - 1) * (d - 1) <= n
    ensures d <= n + 2
  {
    if d > 1 {
      MulMonotone(1, d - 1, d - 1);
    }
  }

  /** The loop over the wheel, which ends at the end of a turn that has got past the square root of n by one. */
  method WheelLoop(n1: nat, out1: seq<nat>, ghost n0: nat) returns (n: nat, out: seq<nat>, d: nat, ghost k: nat)
    requires n0 > 0 && Trying(n0, out1, n1, 7) && !Divides(7, n1) && Reached(n0, Trial(n1, 1, 1), 0)
    ensures d > 0 && Trying(n0, out, n, d) && !Divides(d, n) && (d - 1) * (d - 1) > n
    ensures Reached(n0, Trial(n, d, 0), k) && EndsAfter(n0, k)
  {
    n, out := n1, out1;
    d := 1;
    var i := 1;
    ghost var q := 0;
    k := 0;
    while true
      invariant Wheeling(n0, out, n, d, i, q) && n <= n1
      invariant i == 0 ==> d <= n + 2
      invariant 210 * q <= n1 + 210
      invariant Reached(n0, Trial(n, d, i), k)
      decreases n1 + 210 - 210 * q, if i == 0 then 0 else WHSIZ - i
    {
      n, out, d := TryNext(n, out, d, i, q, k, n0);
      q, k := if i == 0 then q + 1 else q, k + 1;
      assert Reached(n0, Trial(n, d, Turned(i)), k);
      i := i + 1;
      if i >= WHSIZ {
        i := 0;
        if (d - 1) * (d - 1) > n {
          break;
        }
        TurnBound(d, n);
      }
    }
  }

  lemma LastFactor(n0: nat, out: seq<nat>, n: nat, d: nat)
    requires n > 1 && d > 0 && Trying(n0, out, n, d) && !Divides(d, n) && (d - 1) * (d - 1) > n
    ensures Product(out + [n]) == n0 && PrimesUpTo(out + [n], n)
  {
    RestIsPrime(n, d);
    assert (out + [n])[..|out|] == out;
  }

  /** factor: the factors of n are printed, each a prime, in order. */
  method Factor(n: nat) returns (out: seq<nat>)
    ensures n == 0 ==> out == []
    ensures n > 0 ==> Product(out) == n
    ensures forall k :: 0 <= k < |out| ==> Prime(out[k])
    ensures forall j, k :: 0 <= j < k < |out| ==> out[j] <= out[k]
  {
    if n == 0 {
      return [];
    }
    var m, d;
    ghost var k;
    m, out := SmallPrimes(n);
    m, out, d, k := WheelLoop(m, out, n);
    if m > 1 {
      LastFactor(n, out, m, d);
      out := out + [m];
    }
  }
}
