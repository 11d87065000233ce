// What the register of crc32 computes: the remainder of a polynomial division, with the bits of every word mirrored.

/** Polynomials over the field of two elements are natural numbers: bit i is the coefficient of x to the power of i. */
module Crc32Poly {
  import opened Crc32

  /** The polynomial a times x to the power of n. */
  function Raise(a: nat, n: nat): (r: nat)
    ensures a > 0 ==> r > 0
  {
    if n == 0 then a else 2 * Raise(a, n - 1)
  }

  /** x to the power of n. */
  function Two(n: nat): (t: nat)
    ensures t > 0
  {
    Raise(1, n)
  }

  /** The product of polynomials. */
  function Times(q: nat, p: nat): nat {
    if q == 0 then 0 else Xor(if q % 2 == 1 then p else 0, 2 * Times(q / 2, p))
  }

  /** The low w bits of c in the opposite order. */
  function Mirror(c: nat, w: nat): nat {
    if w == 0 then 0 else (if c % 2 == 1 then Two(w - 1) else 0) + Mirror(c / 2, w - 1)
  }

  /** A message as a polynomial: the first bit sent, the lowest of the first byte, has the highest power. */
  function PolyOf(msg: seq<nat>): nat {
    if msg == [] then 0 else Raise(PolyOf(msg[..|msg| - 1]), 8) + Mirror(msg[|msg| - 1], 8)
  }

  /** The divisor: poly without its highest coefficient, which is that of x to the power of w. */
  function Divisor(poly: nat, w: nat): nat {
    Two(w) + Mirror(poly, w)
  }

  /** r is what remains of a when multiples of p, a polynomial of degree w, are taken away. */
  ghost predicate IsRemainder(r: nat, a: nat, p: nat, w: nat) {
    r < Two(w) && exists q: nat :: Xor(Times(q, p), r) == a
  }

  // ----- sums -----------------------------------------------------------------------

  lemma XorZero(a: nat)
    ensures Xor(a, 0) == a == Xor(0, a)
  {
  }

  /** Words with lowest bits x and y. */
  lemma XorCons(a: nat, b: nat, x: nat, y: nat)
    requires x < 2 && y < 2
    ensures Xor(2 * a + x, 2 * b + y) == 2 * Xor(a, b) + if x == y then 0 else 1
  {
    var c, d := 2 * a + x, 2 * b + y;
    assert c / 2 == a && d / 2 == b && c % 2 == x && d % 2 == y;
    XorBits(c, d);
  }

  lemma XorDouble(a: nat, b: nat)
    ensures Xor(2 * a, 2 * b) == 2 * Xor(a, b)
  {
    XorCons(a, b, 0, 0);
  }

  lemma {:induction false} XorRaise(a: nat, b: nat, n: nat)
    ensures Xor(Raise(a, n), Raise(b, n)) == Raise(Xor(a, b), n)
  {
    if n > 0 {
      XorRaise(a, b, n - 1);
      XorDouble(Raise(a, n - 1), Raise(b, n - 1));
    }
  }

  /** a + b and c + d. */
  lemma XorSwap(a: nat, b: nat, c: nat, d: nat)
    ensures Xor(Xor(a, b), Xor(c, d)) == Xor(Xor(a, c), Xor(b, d))
  {
    XorAssociates(a, b, Xor(c, d));
    XorAssociates(b, c, d);
    XorCommutes(b, c);
    XorAssociates(c, b, d);
    XorAssociates(a, c, Xor(b, d));
  }

  /** A word of n bits next to one that begins above them. */
  lemma {:induction false} XorApart(h: nat, l: nat, n: nat)
    requires l < Two(n)
    ensures Xor(Raise(h, n), l) == Raise(h, n) + l
  {
    if n == 0 {
      XorZero(h);
    } else {
      XorApart(h, l / 2, n - 1);
      XorCons(Raise(h, n - 1), l / 2, 0, l % 2);
    }
  }

  lemma {:induction false} XorBelow(a: nat, b: nat, n: nat)
    requires a < Two(n) && b < Two(n)
    ensures Xor(a, b) < Two(n)
  {
    if n > 0 {
      XorBelow(a / 2, b / 2, n - 1);
      XorBits(a, b);
    }
  }

  // ----- mirrored words ---------------------------------------------------------------

  lemma {:induction false} MirrorBelow(c: nat, w: nat)
    ensures Mirror(c, w) < Two(w)
  {
    if w > 0 {
      MirrorBelow(c / 2, w - 1);
    }
  }

  lemma {:induction false} MirrorAdds(a: nat, b: nat, w: nat)
    ensures Mirror(Xor(a, b), w) == Xor(Mirror(a, w), Mirror(b, w))
  {
    if w > 0 {
      MirrorAdds(a / 2, b / 2, w - 1);
      XorBits(a, b);
      var x, y := Mirror(a / 2, w - 1), Mirror(b / 2, w - 1);
      MirrorBelow(a / 2, w - 1);
      MirrorBelow(b / 2, w - 1);
      TopBits(a % 2 == 1, b % 2 == 1, x, y, w - 1, Mirror(a, w), Mirror(b, w));
    }
  }

  /** A common bit above words of n bits cancels. */
  lemma BothTop(x: nat, y: nat, n: nat, a: nat, b: nat)
    requires x < Two(n) && y < Two(n) && a == Two(n) + x && b == Two(n) + y
    ensures Xor(a, b) == Xor(x, y)
  {
    XorApart(1, x, n);
    XorApart(1, y, n);
    SumOfSums(Two(n), x, y, a, b);
  }

  lemma SumOfSums(h: nat, x: nat, y: nat, a: nat, b: nat)
    requires a == Xor(h, x) && b == Xor(h, y)
    ensures Xor(a, b) == Xor(x, y)
  {
    XorCancels(h, x, y);
  }

  lemma SumMoves(h: nat, x: nat, y: nat, a: nat, r: nat)
    requires a == Xor(h, x) && r == Xor(h, Xor(x, y))
    ensures Xor(a, y) == r
  {
    XorAssociates(h, x, y);
  }

  /** A bit above words of n bits stays when it is in the first only. */
  lemma FirstTop(x: nat, y: nat, n: nat, a: nat)
    requires x < Two(n) && y < Two(n) && a == Two(n) + x
    ensures Xor(a, y) == Two(n) + Xor(x, y)
  {
    XorBelow(x, y, n);
    XorApart(1, x, n);
    XorApart(1, Xor(x, y), n);
    SumMoves(Two(n), x, y, a, Two(n) + Xor(x, y));
  }

  lemma SecondTop(x: nat, y: nat, n: nat, b: nat)
    requires x < Two(n) && y < Two(n) && b == Two(n) + y
    ensures Xor(x, b) == Two(n) + Xor(x, y)
  {
    XorCommutes(x, b);
    XorCommutes(x, y);
    FirstTop(y, x, n, b);
  }

  /** Words a and b of n bits and a bit above them in either. */
  lemma TopBits(s: bool, t: bool, x: nat, y: nat, n: nat, a: nat, b: nat)
    requires x < Two(n) && y < Two(n)
    requires (if s then a == Two(n) + x else a == x) && if t then b == Two(n) + y else b == y
    ensures Xor(a, b) == (if s != t then Two(n) else 0) + Xor(x, y)
  {
    if s && t {
      BothTop(x, y, n, a, b);
    } else if s {
      FirstTop(x, y, n, a);
    } else if t {
      SecondTop(x, y, n, b);
    }
  }

  /** The last bit of a mirrored word is the highest one. */
  lemma {:induction false} MirrorLast(c: nat, w: nat)
    ensures Mirror(c, w + 1) == 2 * Mirror(c, w) + Rest(c, w) % 2
  {
    if w > 0 {
      MirrorLast(c / 2, w - 1);
      RestOfHalf(c, w - 1);
    }
  }

  lemma {:induction false} RestBelow(c: nat, w: nat)
    ensures Rest(c, w) == 0 <==> c < Two(w)
  {
    if w > 0 {
      RestBelow(c / 2, w - 1);
      RestOfHalf(c, w - 1);
    }
  }

  /** The low n bits. */
  function LowBits(c: nat, n: nat): nat {
    if n == 0 then 0 else c % 2 + 2 * LowBits(c / 2, n - 1)
  }

  lemma {:induction false} SplitBits(c: nat, n: nat)
    ensures LowBits(c, n) < Two(n) && c == LowBits(c, n) + Raise(Rest(c, n), n)
    ensures Mirror(LowBits(c, n), n) == Mirror(c, n)
  {
    if n > 0 {
      SplitBits(c / 2, n - 1);
      RestOfHalf(c, n - 1);
      var l := LowBits(c, n);
      assert l % 2 == c % 2 && l / 2 == LowBits(c / 2, n - 1);
    }
  }

  lemma {:induction false} MirrorTwice(c: nat, w: nat)
    requires c < Two(w)
    ensures Mirror(Mirror(c, w), w) == c
  {
    if w > 0 {
      var l, h := LowBits(c, w - 1), Rest(c, w - 1);
      SplitBits(c, w - 1);
      MirrorTwice(l, w - 1);
      MirrorLast(c, w - 1);
      RestBelow(c, w);
      RaiseZero(w - 1);
      var m := Mirror(c, w);
      assert h < 2 && m == 2 * Mirror(l, w - 1) + h;
      assert m % 2 == h && m / 2 == Mirror(l, w - 1);
    }
  }

  // ----- one bit ------------------------------------------------------------------------

  /** The mirror of a word without its lowest bit. */
  lemma MirrorHalf(c: nat, w: nat)
    requires w > 0 && c < Two(w)
    ensures 2 * Mirror(c, w) == (if c % 2 == 1 then Two(w) else 0) + Mirror(c / 2, w)
  {
    MirrorLast(c / 2, w - 1);
    RestOfHalf(c, w - 1);
    RestBelow(c, w);
  }

  /** A shift multiplies by x and takes the divisor away when the result has its degree. */
  lemma MirrorShift(poly: nat, c: nat, w: nat)
    requires w > 0 && c < Two(w)
    ensures Mirror(Shift(poly, c), w) == Xor(2 * Mirror(c, w), if c % 2 == 1 then Divisor(poly, w) else 0)
  {
    var x, p := Mirror(c / 2, w), Mirror(poly, w);
    MirrorHalf(c, w);
    if c % 2 == 1 {
      MirrorAdds(poly, c / 2, w);
      MirrorBelow(poly, w);
      MirrorBelow(c / 2, w);
      BothTop(x, p, w, 2 * Mirror(c, w), Divisor(poly, w));
      XorCommutes(x, p);
    } else {
      XorZero(x);
    }
  }

  /** The register c stands for what remains of a, of which q multiples of the divisor have been taken away. */
  predicate Stands(poly: nat, w: nat, c: nat, a: nat, q: nat) {
    c < Two(w) && Xor(Times(q, Divisor(poly, w)), Mirror(c, w)) == a
  }

  /** A bit fed to the register: it stands for one power of x more, plus the bit times x to the power of w. */
  lemma FeedOne(poly: nat, w: nat, c: nat, a: nat, q: nat, b: nat, a': nat) returns (q': nat)
    requires a' == Xor(2 * a, Raise(b, w)) && w > 0 && poly < Two(w) && b < 2 && Stands(poly, w, c, a, q)
    ensures Stands(poly, w, Shift(poly, Xor(c, b)), a', q')
  {
    var d, p, t := Xor(c, b), Divisor(poly, w), Times(q, Divisor(poly, w));
    var more := if d % 2 == 1 then p else 0;
    XorBelow(c, b, w);
    ShiftBelow(poly, d, w);
    q' := 2 * q + d % 2;
    TimesNext(q, d % 2, p);
    MirrorFed(poly, w, c, b, d);
    NextSum(t, Mirror(c, w), Raise(b, w), more, a, a', Times(q', p), Mirror(Shift(poly, d), w));
  }

  lemma MirrorFed(poly: nat, w: nat, c: nat, b: nat, d: nat)
    requires w > 0 && b < 2 && d == Xor(c, b) && d < Two(w)
    ensures Mirror(Shift(poly, d), w) ==
            Xor(Xor(2 * Mirror(c, w), Raise(b, w)), if d % 2 == 1 then Divisor(poly, w) else 0)
  {
    MirrorShift(poly, d, w);
    MirrorAdds(c, b, w);
    MirrorBit(b, w);
    XorDouble(Mirror(c, w), Mirror(b, w));
  }

  /** Taking `more` away from the register and adding it to the multiple leaves the sum. */
  lemma NextSum(t: nat, m: nat, r: nat, more: nat, a: nat, a': nat, t': nat, m': nat)
    requires a == Xor(t, m) && a' == Xor(2 * a, r) && t' == Xor(more, 2 * t) && m' == Xor(Xor(2 * m, r), more)
    ensures Xor(t', m') == a'
  {
    Cancel(more, 2 * t, Xor(2 * m, r));
    XorDouble(t, m);
    SumMoves(2 * t, 2 * m, r, 2 * a, Xor(2 * t, Xor(2 * m, r)));
  }

  lemma MirrorBit(b: nat, w: nat)
    requires b < 2 && w > 0
    ensures 2 * Mirror(b, w) == Raise(b, w) && b < Two(w)
  {
    MirrorZero(w - 1);
    RaiseZero(w);
  }

  lemma {:induction false} RaiseZero(n: nat)
    ensures Raise(0, n) == 0
  {
    if n > 0 {
      RaiseZero(n - 1);
    }
  }

  lemma {:induction false} MirrorZero(w: nat)
    ensures Mirror(0, w) == 0
  {
    if w > 0 {
      MirrorZero(w - 1);
    }
  }

  lemma TimesNext(q: nat, t: nat, p: nat)
    requires t < 2
    ensures Times(2 * q + t, p) == Xor(if t == 1 then p else 0, 2 * Times(q, p))
  {
    if 2 * q + t == 0 {
      XorZero(0);
    } else {
      assert (2 * q + t) / 2 == q && (2 * q + t) % 2 == t;
    }
  }

  lemma Cancel(m: nat, x: nat, y: nat)
    ensures Xor(Xor(m, x), Xor(y, m)) == Xor(x, y)
  {
    XorCommutes(y, m);
    XorCancels(m, x, y);
  }

  lemma ShiftBelow(poly: nat, c: nat, w: nat)
    requires w > 0 && poly < Two(w) && c < Two(w)
    ensures Shift(poly, c) < Two(w)
  {
    XorBelow(poly, c / 2, w);
  }

  // ----- a message ----------------------------------------------------------------------

  /** A message of n bits whose polynomial is m, put before w zeros, added to the start value before all of it. */
  function Dividend(m: nat, n: nat, start: nat, w: nat): nat {
    Xor(Raise(m, w), Raise(start, n))
  }

  lemma NextDividend(m: nat, n: nat, start: nat, w: nat, b: nat)
    requires b < 2
    ensures Dividend(2 * m + b, n + 1, start, w) == Xor(2 * Dividend(m, n, start, w), Raise(b, w))
  {
    var x, y, z := Raise(m, w), Raise(start, n), Raise(b, w);
    XorDouble(x, y);
    RaiseSum(m, b, w);
    SwapLast(2 * x, 2 * y, z, Raise(2 * m + b, w), 2 * Xor(x, y));
  }

  lemma RaiseSum(m: nat, b: nat, w: nat)
    requires b < 2
    ensures Raise(2 * m + b, w) == Xor(2 * Raise(m, w), Raise(b, w))
  {
    XorCons(m, 0, 0, b);
    XorZero(m);
    XorRaise(2 * m, b, w);
    RaiseDouble(m, w);
  }

  lemma SwapLast(x: nat, y: nat, z: nat, xz: nat, xy: nat)
    requires xz == Xor(x, z) && xy == Xor(x, y)
    ensures Xor(xz, y) == Xor(xy, z)
  {
    XorAssociates(x, z, y);
    XorCommutes(z, y);
    XorAssociates(x, y, z);
  }

  lemma {:induction false} RaiseDouble(m: nat, n: nat)
    ensures Raise(2 * m, n) == 2 * Raise(m, n)
  {
    if n > 0 {
      RaiseDouble(m, n - 1);
    }
  }

  /** The k lowest bits of a byte fed after a message. */
  lemma {:induction false} FeedSome(poly: nat, w: nat, c: nat, m: nat, n: nat, start: nat, q: nat, b: nat, k: nat)
    returns (q': nat)
    requires w > 0 && poly < Two(w) && Stands(poly, w, c, Dividend(m, n, start, w), q)
    ensures Stands(poly, w, FeedBits(poly, c, b, k), Dividend(Raise(m, k) + Mirror(b, k), n + k, start, w), q')
  {
    q' := q;
    if k > 0 {
      var m', t := Raise(m, k - 1) + Mirror(b, k - 1), Rest(b, k - 1) % 2;
      q' := FeedSome(poly, w, c, m, n, start, q, b, k - 1);
      var a, a' := Dividend(m', n + (k - 1), start, w), Dividend(Raise(m, k) + Mirror(b, k), n + k, start, w);
      NextDividend(m', n + (k - 1), start, w, t);
      MirrorLast(b, k - 1);
      assert 2 * m' + t == Raise(m, k) + Mirror(b, k) && n + (k - 1) + 1 == n + k;
      q' := FeedOne(poly, w, FeedBits(poly, c, b, k - 1), a, q', t, a');
    }
  }

  lemma {:induction false} SerialStands(poly: nat, w: nat, init: nat, msg: seq<nat>) returns (q: nat)
    requires w > 0 && poly < Two(w) && init < Two(w)
    ensures Stands(poly, w, Serial(poly, init, msg), Dividend(PolyOf(msg), 8 * |msg|, Mirror(init, w), w), q)
  {
    if msg == [] {
      XorZero(Mirror(init, w));
      RaiseZero(w);
      return 0;
    }
    var most, n := msg[..|msg| - 1], |msg| - 1;
    q := SerialStands(poly, w, init, most);
    q := FeedSome(poly, w, Serial(poly, init, most), PolyOf(most), 8 * n, Mirror(init, w), q, msg[n], 8);
  }

  // ----- the remainder is unique --------------------------------------------------------

  lemma {:induction false} TimesAdds(a: nat, b: nat, p: nat)
    ensures Times(Xor(a, b), p) == Xor(Times(a, p), Times(b, p))
    decreases a + b
  {
    if a == 0 || b == 0 {
      XorZero(Times(a, p));
      XorZero(Times(b, p));
    } else {
      TimesAdds(a / 2, b / 2, p);
      XorBits(a, b);
      var x, y := Times(a / 2, p), Times(b / 2, p);
      var s, t := if a % 2 == 1 then p else 0, if b % 2 == 1 then p else 0;
      XorSwap(s, 2 * x, t, 2 * y);
      XorDouble(x, y);
      XorSelf(p);
      XorZero(p);
      TimesNext(Xor(a, b) / 2, Xor(a, b) % 2, p);
    }
  }

  /** A multiple of a polynomial of degree w other than zero has at least that degree. */
  lemma {:induction false} MultipleIsLarge(q: nat, p: nat, w: nat)
    requires q > 0 && Two(w) <= p < Two(w + 1)
    ensures Times(q, p) >= Two(w)
    decreases q
  {
    if q / 2 == 0 {
      XorZero(p);
    } else {
      MultipleIsLarge(q / 2, p, w);
      var t := 2 * Times(q / 2, p);
      if q % 2 == 1 {
        SumIsLarge(p, t, w + 1);
        assert Two(w + 1) == 2 * Two(w);
      } else {
        XorZero(t);
      }
    }
  }

  /** A sum is large when one term alone is. */
  lemma SumIsLarge(a: nat, b: nat, n: nat)
    requires a < Two(n) <= b
    ensures Xor(a, b) >= Two(n)
  {
    if Xor(a, b) < Two(n) {
      XorBelow(a, Xor(a, b), n);
      XorAssociates(a, a, b);
      XorSelf(a);
      XorZero(b);
    }
  }

  lemma RemainderUnique(r: nat, r': nat, a: nat, p: nat, w: nat)
    requires Two(w) <= p < Two(w + 1) && IsRemainder(r, a, p, w) && IsRemainder(r', a, p, w)
    ensures r == r'
  {
    var q: nat :| Xor(Times(q, p), r) == a;
    var q': nat :| Xor(Times(q', p), r') == a;
    TimesAdds(q, q', p);
    XorSwap(Times(q, p), r, Times(q', p), r');
    XorSelf(a);
    var t, s := Times(Xor(q, q'), p), Xor(r, r');
    assert Xor(t, s) == 0;
    ZeroSum(t, s);
    XorBelow(r, r', w);
    if Xor(q, q') > 0 {
      MultipleIsLarge(Xor(q, q'), p, w);
    }
    ZeroSum(r, r');
  }

  lemma {:induction false} ZeroSum(a: nat, b: nat)
    requires Xor(a, b) == 0
    ensures a == b
  {
    XorAssociates(a, b, b);
    XorSelf(b);
    XorZero(a);
    XorZero(b);
  }

  /**
   * What the register holds after a message: mirrored, it is the remainder, and nothing else, that the message leaves
   * when it is followed by as many zeros as the register has bits and divided by the polynomial, where the start value
   * has been added to its beginning.
   */
  lemma RegisterIsRemainder(poly: nat, w: nat, init: nat, msg: seq<nat>, r: nat)
    requires w > 0 && poly < Two(w) && init < Two(w)
    ensures IsRemainder(r, Dividend(PolyOf(msg), 8 * |msg|, Mirror(init, w), w), Divisor(poly, w), w)
            <==> r < Two(w) && Serial(poly, init, msg) == Mirror(r, w)
  {
    var c, a, p := Serial(poly, init, msg), Dividend(PolyOf(msg), 8 * |msg|, Mirror(init, w), w), Divisor(poly, w);
    var q := SerialStands(poly, w, init, msg);
    MirrorBelow(c, w);
    MirrorTwice(c, w);
    MirrorBelow(poly, w);
    assert IsRemainder(Mirror(c, w), a, p, w);
    if IsRemainder(r, a, p, w) {
      RemainderUnique(r, Mirror(c, w), a, p, w);
    } else if r < Two(w) {
      MirrorTwice(r, w);
    }
  }

  // ----- errors that are found ----------------------------------------------------------

  /** With the highest bit of poly set no two registers become one. */
  lemma ShiftTellsApart(poly: nat, w: nat, c: nat, d: nat)
    requires w > 0 && Two(w - 1) <= poly < Two(w) && c < Two(w) && d < Two(w) && c != d
    ensures Shift(poly, c) != Shift(poly, d)
  {
    if c % 2 == d % 2 {
      if Xor(poly, c / 2) == Xor(poly, d / 2) {
        XorTellsApart(poly, c / 2, d / 2);
      }
    } else {
      SumIsLarge(c / 2, poly, w - 1);
      SumIsLarge(d / 2, poly, w - 1);
      XorCommutes(c / 2, poly);
      XorCommutes(d / 2, poly);
    }
  }

  lemma XorTellsApart(p: nat, a: nat, b: nat)
    requires Xor(p, a) == Xor(p, b)
    ensures a == b
  {
    XorCancels(p, a, b);
    XorSelf(Xor(p, a));
    ZeroSum(a, b);
  }

  lemma {:induction false} FeedTellsApart(poly: nat, w: nat, c: nat, d: nat, b: nat, k: nat)
    requires w > 0 && Two(w - 1) <= poly < Two(w) && c < Two(w) && d < Two(w) && c != d
    ensures FeedBits(poly, c, b, k) < Two(w) && FeedBits(poly, d, b, k) < Two(w)
    ensures FeedBits(poly, c, b, k) != FeedBits(poly, d, b, k)
  {
    if k > 0 {
      FeedTellsApart(poly, w, c, d, b, k - 1);
      var x, y, t := FeedBits(poly, c, b, k - 1), FeedBits(poly, d, b, k - 1), Rest(b, k - 1) % 2;
      XorBelow(x, t, w);
      XorBelow(y, t, w);
      XorCommutes(x, t);
      XorCommutes(y, t);
      if Xor(x, t) == Xor(y, t) {
        XorTellsApart(t, x, y);
      }
      ShiftBelow(poly, Xor(x, t), w);
      ShiftBelow(poly, Xor(y, t), w);
      ShiftTellsApart(poly, w, Xor(x, t), Xor(y, t));
    }
  }

  lemma {:induction false} SerialTellsApart(poly: nat, w: nat, c: nat, d: nat, msg: seq<nat>)
    requires w > 0 && Two(w - 1) <= poly < Two(w) && c < Two(w) && d < Two(w) && c != d
    ensures Serial(poly, c, msg) < Two(w) && Serial(poly, d, msg) < Two(w)
    ensures Serial(poly, c, msg) != Serial(poly, d, msg)
  {
    if msg != [] {
      var most := msg[..|msg| - 1];
      SerialTellsApart(poly, w, c, d, most);
      FeedTellsApart(poly, w, Serial(poly, c, most), Serial(poly, d, most), msg[|msg| - 1], 8);
    }
  }

  lemma {:induction false} ShiftsTellApart(poly: nat, w: nat, c: nat, d: nat, k: nat)
    requires w > 0 && Two(w - 1) <= poly < Two(w) && c < Two(w) && d < Two(w) && c != d
    ensures Shifts(poly, c, k) < Two(w) && Shifts(poly, d, k) < Two(w) && Shifts(poly, c, k) != Shifts(poly, d, k)
  {
    if k > 0 {
      ShiftsTellApart(poly, w, c, d, k - 1);
      ShiftBelow(poly, Shifts(poly, c, k - 1), w);
      ShiftBelow(poly, Shifts(poly, d, k - 1), w);
      ShiftTellsApart(poly, w, Shifts(poly, c, k - 1), Shifts(poly, d, k - 1));
    }
  }

  /** A byte fed is the eight shifts of its sum with the register. */
  lemma ByteIsShifts(poly: nat, c: nat, b: nat)
    requires b < 256
    ensures FeedBits(poly, c, b, 8) == Shifts(poly, Xor(c, b), 8)
  {
    FeedAtOnce(poly, c, b, 8);
    RestIsQuotient(b);
    XorZero(FeedBits(poly, c, b, 8));
  }

  lemma EightBits(b: nat, w: nat)
    requires b < 256 && w >= 8
    ensures b < Two(w)
    decreases w
  {
    if w > 8 {
      EightBits(b, w - 1);
    }
  }

  /** Messages that differ in one byte only, in whatever bits of it, have different registers. */
  lemma OneByteIsFound(poly: nat, w: nat, init: nat, a: seq<nat>, x: nat, y: nat, b: seq<nat>)
    requires w >= 8 && Two(w - 1) <= poly < Two(w) && init < Two(w) && x < 256 && y < 256 && x != y
    ensures Serial(poly, init, a + [x] + b) != Serial(poly, init, a + [y] + b)
  {
    var c := Serial(poly, init, a);
    var q := SerialStands(poly, w, init, a);
    NextByte(poly, init, a, x);
    NextByte(poly, init, a, y);
    EightBits(x, w);
    EightBits(y, w);
    XorBelow(c, x, w);
    XorBelow(c, y, w);
    if Xor(c, x) == Xor(c, y) {
      XorTellsApart(c, x, y);
    }
    ShiftsTellApart(poly, w, Xor(c, x), Xor(c, y), 8);
    SerialConcat(poly, init, a + [x], b);
    SerialConcat(poly, init, a + [y], b);
    SerialTellsApart(poly, w, Serial(poly, init, a + [x]), Serial(poly, init, a + [y]), b);
  }

  lemma NextByte(poly: nat, init: nat, a: seq<nat>, x: nat)
    requires x < 256
    ensures Serial(poly, init, a + [x]) == Shifts(poly, Xor(Serial(poly, init, a), x), 8)
  {
    assert (a + [x])[..|a|] == a;
    ByteIsShifts(poly, Serial(poly, init, a), x);
  }
}
