// Hundred's-complement digit strings: the number format of sys/src/cmd/dc.c.

/** The value of a base-100 digit string and the shapes of string that dc stores. */
module DcNumber {

  /** 100 to the power n. */
  function Pow(n: nat): (p: int)
    ensures p >= 1
  {
    if n == 0 then 1 else 100 * Pow(n - 1)
  }

  /** The integer a string stands for, least significant digit first; a top digit of -1 is a complement. */
  function Val(s: seq<int>): int {
    if s == [] then 0 else Val(s[..|s| - 1]) + s[|s| - 1] * Pow(|s| - 1)
  }

  /** Every digit is in 0..99. */
  predicate Digits(s: seq<int>) {
    forall i :: 0 <= i < |s| ==> 0 <= s[i] < 100
  }

  /** A stored number: digits 0..99, except that the top one may be the complement mark -1. */
  predicate Number(s: seq<int>) {
    forall i :: 0 <= i < |s| ==> -1 <= s[i] < 100 && (s[i] < 0 ==> i == |s| - 1)
  }

  /** Digits 0..99 with complement marks anywhere: what chsign and add can work on. */
  predicate Signed(s: seq<int>) {
    forall i :: 0 <= i < |s| ==> -1 <= s[i] < 100
  }

  /** A stored number with no superfluous top digits; minus one has both spellings [-1] and [99, -1]. */
  predicate Normal(s: seq<int>) {
    && Number(s)
    && (s != [] ==> s[|s| - 1] != 0)
    && (|s| > 2 && s[|s| - 1] == -1 ==> s[|s| - 2] != 99)
  }

  /** A normal number that spells minus one with a single digit, as chsign and mult do. */
  predicate Shortest(s: seq<int>) {
    Normal(s) && s != [99, -1]
  }

  predicate Negative(s: seq<int>) {
    s != [] && s[|s| - 1] < 0
  }

  /** A stored number whose magnitude chsign spells in normal form; [0, 99, -1] is one that is not normal itself. */
  predicate Compact(s: seq<int>) {
    && Number(s) && (s != [] ==> s[|s| - 1] != 0)
    && (Negative(s) && |s| >= 2 ==> -Val(s) >= Pow(|s| - 2))
  }

  lemma {:induction false} PowAdd(a: nat, b: nat)
    ensures Pow(a + b) == Pow(a) * Pow(b)
  {
    if a > 0 {
      PowAdd(a - 1, b);
      assert Pow(a + b) == 100 * (Pow(a - 1) * Pow(b)) == (100 * Pow(a - 1)) * Pow(b);
    }
  }

  lemma {:induction false} PowMonotone(a: nat, b: nat)
    requires a <= b
    ensures Pow(a) <= Pow(b)
  {
    if a < b {
      PowMonotone(a, b - 1);
    }
  }

  lemma ValSnoc(s: seq<int>, d: int)
    ensures Val(s + [d]) == Val(s) + d * Pow(|s|)
  {
    assert (s + [d])[..|s|] == s;
  }

  /** Splitting a string at digit i. */
  lemma {:induction false} ValSplit(s: seq<int>, i: nat)
    requires i <= |s|
    ensures Val(s) == Val(s[..i]) + Pow(i) * Val(s[i..])
    decreases |s|
  {
    if i == |s| {
      assert s[..i] == s;
      assert Val(s[i..]) == 0;
    } else {
      ValSplit(s[..|s| - 1], i);
      SplitStep(s, s[..|s| - 1], i);
    }
  }

  lemma SplitStep(s: seq<int>, t: seq<int>, i: nat)
    requires i < |s| && t == s[..|s| - 1] && Val(t) == Val(t[..i]) + Pow(i) * Val(t[i..])
    ensures Val(s) == Val(s[..i]) + Pow(i) * Val(s[i..])
  {
    var n := |s| - 1;
    assert t[..i] == s[..i];
    assert s[i..] == t[i..] + [s[n]];
    ValSnoc(t[i..], s[n]);
    PowAdd(i, n - i);
    Distribute(Pow(i), Val(t[i..]), s[n], Pow(n - i));
  }

  lemma Distribute(a: int, x: int, d: int, y: int)
    ensures a * (x + d * y) == a * x + d * (a * y)
  {
    assert a * (d * y) == d * (a * y);
  }

  lemma ValConcat(a: seq<int>, b: seq<int>)
    ensures Val(a + b) == Val(a) + Pow(|a|) * Val(b)
  {
    ValSplit(a + b, |a|);
    assert (a + b)[..|a|] == a && (a + b)[|a|..] == b;
  }

  lemma {:induction false} ValZeros(s: seq<int>)
    requires forall i :: 0 <= i < |s| ==> s[i] == 0
    ensures Val(s) == 0
  {
    if s != [] {
      ValZeros(s[..|s| - 1]);
    }
  }

  lemma {:induction false} ValBound(s: seq<int>)
    requires Digits(s)
    ensures 0 <= Val(s) < Pow(|s|)
  {
    if s != [] {
      var n := |s| - 1;
      ValBound(s[..n]);
      MulMonotone(s[n], 99, Pow(n));
      assert 0 <= s[n] * Pow(n) <= 99 * Pow(n);
    }
  }

  lemma DistributeThree(a: int, b: int, c: int, sum: int, p: int)
    requires a + b + c == sum
    ensures a * p + b * p + c * p == sum * p
  {
  }

  lemma MulMonotone(a: int, b: int, p: int)
    requires a <= b && p >= 0
    ensures a * p <= b * p
  {
  }

  /** The top digit alone decides the sign, so dc's test of one digit is exact. */
  lemma SignOfNumber(s: seq<int>)
    requires Number(s)
    ensures Negative(s) <==> Val(s) < 0
    ensures !Negative(s) ==> Digits(s)
  {
    if s != [] {
      var n := |s| - 1;
      ValBound(s[..n]);
      if s[n] >= 0 {
        MulMonotone(0, s[n], Pow(n));
      }
    }
  }

  /** Zero has a single normal spelling, the empty string. */
  lemma ZeroIsEmpty(s: seq<int>)
    requires Normal(s)
    ensures Val(s) == 0 <==> s == []
  {
    SignOfNumber(s);
    if s != [] && s[|s| - 1] > 0 {
      TopDigitBound(s);
    }
  }

  lemma TopDigitBound(s: seq<int>)
    requires Digits(s) && s != []
    ensures s[|s| - 1] * Pow(|s| - 1) <= Val(s) < (s[|s| - 1] + 1) * Pow(|s| - 1)
    ensures s[|s| - 1] > 0 ==> Pow(|s| - 1) <= Val(s)
  {
    var n := |s| - 1;
    ValBound(s[..n]);
    if s[n] > 0 {
      MulMonotone(1, s[n], Pow(n));
    }
  }
}
