// dc's long division, proved to be exact truncated division of signed numbers of any length.

/** div of sys/src/cmd/dc.c. */
module DcDivide {
  import opened DcNumber
  import opened DcBlock
  import opened DcArith
  import opened DcTrial

  /** q and r are quotient and remainder of a by b, the remainder taking the sign of the dividend. */
  predicate IsDivision(a: int, b: int, q: int, r: int) {
    a == q * b + r && Abs(r) < Abs(b) && (r != 0 ==> (r < 0) == (a < 0))
  }

  /** Quotient and remainder are determined by their defining property. */
  lemma DivisionUnique(a: int, b: int, q: int, r: int, q': int, r': int)
    requires b != 0 && IsDivision(a, b, q, r) && IsDivision(a, b, q', r')
    ensures q == q' && r == r'
  {
    assert (q - q') * b == r' - r;
    if q != q' {
      AbsProduct(q - q', b);
    }
  }

  lemma AbsProduct(k: int, b: int)
    requires k != 0
    ensures Abs(k * b) >= Abs(b)
  {
    if k > 0 {
      if b >= 0 { MulMonotone(1, k, b); } else { MulMonotone(1, k, -b); assert k * (-b) == -(k * b); }
    } else {
      if b >= 0 {
        MulMonotone(1, -k, b);
        assert (-k) * b == -(k * b);
      } else {
        MulMonotone(1, -k, -b);
        assert (-k) * (-b) == k * b;
      }
    }
  }

  // ----- one digit step ----------------------------------------------------

  /** The estimate of the divisor, read off its top digits. */
  method DivisorKey(divr: Blk) returns (c: int, magic: bool)
    requires Divisor(divr.buf)
    modifies divr`rd
    ensures c == Key(divr.buf) && magic == (divr.buf[|divr.buf| - 1] < 10)
  {
    ghost var b := divr.buf;
    divr.FsFile();
    c := divr.BackC();
    magic := c < 10;
    assert Lead(b, 1) == c by { assert Lead(b, 0) == 0; }
    var next := BackOrZero(divr);
    c := c * 100 + next;
    assert c == Lead(b, 2);
    if magic {
      next := BackOrZero(divr);
      c := (c * 100 + next) * 2;
      assert c == Lead(b, 3) * 2;
      c := c / 25;
    }
  }

  /** The next digit down, or zero at the beginning. */
  method BackOrZero(p: Blk) returns (d: int)
    requires p.rd <= |p.buf|
    modifies p`rd
    ensures if old(p.rd) == 0 then d == 0 && p.rd == 0 else p.rd == old(p.rd) - 1 && d == p.buf[p.rd]
  {
    d := 0;
    if !p.AtBeg() {
      d := p.BackC();
    }
  }

  /** The trial digit, from the three top digits of the dividend part. */
  method TrialDigit(divd: Blk, c: int, magic: bool, offset: nat) returns (dig: int, under: bool)
    requires divd.buf != [] && c > 0
    modifies divd`rd
    ensures (dig, under) == Guess(Lead(divd.buf, 3), c, magic, offset == 0)
  {
    ghost var a := divd.buf;
    divd.FsFile();
    var td := divd.BackC();
    assert Lead(a, 1) == td by { assert Lead(a, 0) == 0; }
    var dd := BackOrZero(divd);
    td := td * 100 + dd;
    assert td == Lead(a, 2);
    dd := BackOrZero(divd);
    td := td * 100 + dd;
    assert td == Lead(a, 3);
    var cc := c;
    if offset == 0 {
      td := td + 1;
    } else {
      cc := cc + 1;
    }
    if magic {
      td := td * 8;
    }
    dig := td / cc;
    under := false;
    if td % cc < 8 && dig > 0 && magic {
      dig := dig - 1;
      under := true;
    }
  }

  /** x holds the first i digits of dig * b, with `carry` to follow. */
  predicate Multiplied(b: seq<int>, dig: int, x: seq<int>, i: nat, carry: int) {
    && i <= |b| && i <= |x| && Digits(x[..i]) && 0 <= carry <= LIMIT
    && Val(x[..i]) + carry * Pow(i) == dig * Val(b[..i])
  }

  lemma MultiplyStep(b: seq<int>, dig: int, x: seq<int>, i: nat, carry: int, x': seq<int>, d: int)
    requires Multiplied(b, dig, x, i, carry) && i < |b| && Digits(b) && 0 <= dig <= LIMIT
    requires d == b[i] * dig + carry && |x'| > i && x'[..i] == x[..i] && x'[i] == d % 100
    ensures 0 <= d / 100 <= LIMIT && Multiplied(b, dig, x', i + 1, d / 100)
  {
    ProductDigit(b[i], dig, carry);
    assert x'[..i + 1] == x[..i] + [d % 100] && b[..i + 1] == b[..i] + [b[i]];
    ValSnoc(x[..i], d % 100);
    ValSnoc(b[..i], b[i]);
    Distribute(dig, Val(b[..i]), b[i], Pow(i));
    Combine(d % 100, d / 100, b[i], dig, carry, Pow(i));
  }

  lemma ProductDigit(b: int, dig: int, carry: int)
    requires 0 <= b < 100 && 0 <= dig <= LIMIT && 0 <= carry <= LIMIT
    ensures 0 <= (b * dig + carry) / 100 <= LIMIT
  {
    MulBoth(b, 99, dig, LIMIT);
  }

  lemma Combine(n: int, carry': int, b: int, dig: int, carry: int, p: int)
    requires n + 100 * carry' == b * dig + carry
    ensures n * p + carry' * (100 * p) == b * (dig * p) + carry * p
  {
    assert (b * dig + carry) * p == b * (dig * p) + carry * p;
    Regroup(n, carry', p);
  }

  /** divxyz := dig * divr in its first |divr| + 1 digits; older digits above those are left alone. */
  method MultiplyDivisor(divxyz: Blk, divr: Blk, dig: int)
    requires divxyz != divr && Digits(divr.buf) && 0 <= dig <= LIMIT
    modifies divxyz, divr`rd
    ensures |divxyz.buf| > |divr.buf| && divxyz.rd == 0
    ensures Digits(divxyz.buf[..|divr.buf|]) && 0 <= divxyz.buf[|divr.buf|] <= LIMIT
    ensures Val(divxyz.buf[..|divr.buf| + 1]) == dig * Val(divr.buf)
  {
    ghost var b := divr.buf;
    divr.Rewind();
    divxyz.Rewind();
    var carry := 0;
    while !divr.AtEnd()
      invariant divr.rd == divxyz.rd && Multiplied(b, dig, divxyz.buf, divr.rd, carry)
      decreases |b| - divr.rd
    {
      ghost var i, x, carry0 := divr.rd, divxyz.buf, carry;
      var c := divr.GetC();
      var d := c * dig + carry;
      carry := d / 100;
      divxyz.AlterC(d % 100);
      assert divxyz.buf[..i] == x[..i];
      MultiplyStep(b, dig, x, i, carry0, divxyz.buf, d);
    }
    ghost var x := divxyz.buf;
    divxyz.AlterC(carry);
    MultipliedAll(b, dig, x, carry, divxyz.buf);
    divxyz.Rewind();
  }

  lemma MultipliedAll(b: seq<int>, dig: int, x: seq<int>, carry: int, x': seq<int>)
    requires Multiplied(b, dig, x, |b|, carry) && |x'| > |b| && x'[..|b|] == x[..|b|] && x'[|b|] == carry
    ensures Val(x'[..|b| + 1]) == dig * Val(b)
  {
    assert b[..|b|] == b && x'[..|b| + 1] == x[..|b|] + [carry];
    ValSnoc(x[..|b|], carry);
  }

  /** What a borrow into digit i is worth. */
  function Owed(borrow: int, i: nat): int {
    if borrow == 0 then 0 else Pow(i)
  }

  /** Digits offset..i-1 of b are those of a - 100^offset * x, with a borrow into digit i. */
  predicate Subtracted(a: seq<int>, x: seq<int>, offset: nat, b: seq<int>, i: nat, borrow: int) {
    && offset <= i < |a| == |b| && i - offset <= |x|
    && (forall j :: i <= j < |a| ==> b[j] == a[j])
    && Digits(b[..i]) && (borrow == 0 || borrow == 1)
    && Val(b[..i]) - Owed(borrow, i) == Val(a[..i]) - Pow(offset) * Val(x[..i - offset])
  }

  /** The whole difference: `top` is its top digit before a borrow from above is added to it. */
  predicate Difference(a: seq<int>, x: seq<int>, offset: nat, b: seq<int>, top: int, borrow: int) {
    && offset < |a| == |b| && |a| - offset <= |x|
    && Digits(b[..|a| - 1]) && -2 * LIMIT <= top <= LIMIT
    && borrow == (if top < 0 then 1 else 0) && b[|a| - 1] == (if top < 0 then top + 100 else top)
    && Val(b[..|a| - 1]) + top * Pow(|a| - 1) == Val(a) - Pow(offset) * Val(x[..|a| - offset])
  }

  lemma SubtractArithmetic(s: seq<int>, x: seq<int>, offset: nat, i: nat, d: int, borrow: int, w: int)
    requires offset <= i < |s| && i - offset < |x|
    requires d == s[i] - x[i - offset] - borrow
    requires borrow == 0 || borrow == 1
    requires w - Owed(borrow, i) == Val(s[..i]) - Pow(offset) * Val(x[..i - offset])
    ensures w + d * Pow(i) == Val(s[..i + 1]) - Pow(offset) * Val(x[..i - offset + 1])
  {
    var j := i - offset;
    assert s[..i + 1] == s[..i] + [s[i]] && x[..j + 1] == x[..j] + [x[j]];
    ValSnoc(s[..i], s[i]);
    ValSnoc(x[..j], x[j]);
    PowAdd(offset, j);
    Distribute(Pow(offset), Val(x[..j]), x[j], Pow(j));
    DistributeThree(d, x[j], borrow, s[i], Pow(i));
  }

  lemma SubtractStep(a: seq<int>, x: seq<int>, offset: nat, b: seq<int>, i: nat, borrow: int, d: int)
    requires Subtracted(a, x, offset, b, i, borrow) && Partial(a) && i + 1 < |a| && i - offset < |x|
    requires 0 <= x[i - offset] < 100 && d == a[i] - x[i - offset] - borrow
    ensures var n := if d < 0 then d + 100 else d;
            Subtracted(a, x, offset, b[i := n], i + 1, if d < 0 then 1 else 0)
  {
    var n := if d < 0 then d + 100 else d;
    var b' := b[i := n];
    assert b'[..i + 1] == b[..i] + [n];
    ValSnoc(b[..i], n);
    SubtractArithmetic(a, x, offset, i, d, borrow, Val(b[..i]));
    if d < 0 {
      Spread(d, 100, Pow(i));
    }
  }

  lemma SubtractTop(a: seq<int>, x: seq<int>, offset: nat, b: seq<int>, borrow: int, d: int)
    requires Partial(a) && Subtracted(a, x, offset, b, |a| - 1, borrow) && |a| - offset <= |x|
    requires 0 <= x[|a| - 1 - offset] <= LIMIT && d == a[|a| - 1] - x[|a| - 1 - offset] - borrow
    ensures Difference(a, x, offset, b[|a| - 1 := if d < 0 then d + 100 else d], d, if d < 0 then 1 else 0)
  {
    var i := |a| - 1;
    assert b[i := if d < 0 then d + 100 else d][..i] == b[..i];
    SubtractArithmetic(a, x, offset, i, d, borrow, Val(b[..i]));
    assert a[..i + 1] == a;
  }

  /** Subtracts one product digit from the dividend digit under the cursor. */
  method SubtractDigit(divd: Blk, divxyz: Blk, borrow: int) returns (carry: int, d: int)
    requires divd != divxyz && divd.rd < |divd.buf| && divxyz.rd < |divxyz.buf| && 0 <= borrow <= 1
    requires 0 <= divd.buf[divd.rd] <= LIMIT && 0 <= divxyz.buf[divxyz.rd] <= LIMIT
    modifies divd, divxyz`rd
    ensures d == old(divd.buf[divd.rd]) - divxyz.buf[old(divxyz.rd)] - borrow
    ensures carry == if d < 0 then 1 else 0
    ensures divd.buf == old(divd.buf)[old(divd.rd) := if d < 0 then d + 100 else d]
    ensures divd.rd == old(divd.rd) + 1 && divxyz.rd == old(divxyz.rd) + 1
  {
    d := divd.LookC();
    var e := NextDigit(divxyz);
    d := d - e - borrow;
    carry := 0;
    if d < 0 {
      divd.AlterC(d + 100);
      carry := 1;
    } else {
      divd.AlterC(d);
    }
  }

  /** divd -= 100^offset * divxyz, wrapping round when the result is negative. */
  method SubtractProduct(divd: Blk, divxyz: Blk, offset: nat) returns (carry: int, ghost top: int)
    requires divd != divxyz && Partial(divd.buf) && offset < |divd.buf| && divxyz.rd == 0
    requires |divd.buf| - offset <= |divxyz.buf|
    requires forall j :: 0 <= j < |divd.buf| - offset - 1 ==> 0 <= divxyz.buf[j] < 100
    requires 0 <= divxyz.buf[|divd.buf| - offset - 1] <= LIMIT
    modifies divd, divxyz`rd
    ensures Difference(old(divd.buf), divxyz.buf, offset, divd.buf, top, carry)
  {
    ghost var a, x := divd.buf, divxyz.buf;
    divd.SeekC(offset);
    carry := 0;
    assert x[..0] == [];
    while divd.rd + 1 < |divd.buf|
      invariant divxyz.rd == divd.rd - offset
      invariant Subtracted(a, x, offset, divd.buf, divd.rd, carry)
      decreases |divd.buf| - divd.rd
    {
      ghost var i, b, borrow := divd.rd, divd.buf, carry;
      var d;
      carry, d := SubtractDigit(divd, divxyz, carry);
      SubtractStep(a, x, offset, b, i, borrow, d);
    }
    ghost var b, borrow := divd.buf, carry;
    var d;
    carry, d := SubtractDigit(divd, divxyz, carry);
    SubtractTop(a, x, offset, b, borrow, d);
    top := d;
  }

  // ----- the invariant of the division loop --------------------------------

  /** Every quotient digit so far is a small nonnegative number, not yet necessarily below 100. */
  predicate Loose(p: seq<int>, limit: int) {
    forall i :: 0 <= i < |p| ==> 0 <= p[i] <= limit
  }

  /** The divisor shifted up by k digits. */
  function Scaled(b: seq<int>, k: nat): int {
    if k == 0 then Val(b) else 100 * Scaled(b, k - 1)
  }

  lemma {:induction false} ScaledIsProduct(b: seq<int>, k: nat)
    ensures Scaled(b, k) == Val(b) * Pow(k)
  {
    if k > 0 {
      ScaledIsProduct(b, k - 1);
    }
  }

  lemma ScaledBounds(b: seq<int>, k: nat)
    requires Digits(b)
    ensures Scaled(b, k) < Pow(|b| + k) && Scaled(b, k + 1) == 100 * Scaled(b, k)
    ensures Divisor(b) ==> Scaled(b, k) > 0
  {
    ScaledIsProduct(b, k);
    ValBound(b);
    PowAdd(|b|, k);
    MulLess(Val(b), Pow(|b|), Pow(k));
    if Divisor(b) {
      TopDigitBound(b);
      MulLess(0, Val(b), Pow(k));
    }
  }

  /** Before the step at `offset`: n is what is left in a plus b times the quotient digits above offset. */
  predicate Dividing(n: int, b: seq<int>, a: seq<int>, p: seq<int>, offset: nat) {
    && Divisor(b) && Partial(a) && |a| == |b| + 1 + offset && offset < |p| && Loose(p[offset + 1..], LIMIT)
    && Val(a) < LIMIT * Scaled(b, offset)
    && n == Val(a) + Scaled(b, offset + 1) * Val(p[offset + 1..])
  }

  /** After the last step: the remainder may be up to a divisor too large (`under`) or too small (a final borrow). */
  predicate Divided(n: int, b: seq<int>, a: seq<int>, p: seq<int>, under: bool, borrow: int) {
    && Divisor(b) && Digits(a) && |a| == |b| + 1 && p != [] && Loose(p, LIMIT)
    && (borrow == 0 || borrow == 1)
    && n == Val(a) - Owed(borrow, |a|) + Val(b) * Val(p)
    && (if borrow == 1 then !under && p[0] > 0 && a[|b|] == 99 && Val(a) - Pow(|a|) >= -Val(b)
        else Val(a) < (if under then 2 * Val(b) else Val(b)))
  }

  /** The top digit of a difference r with -y <= r < 2 * y and y below its weight. */
  lemma TopOfDifference(low: int, top: int, w: int, y: int)
    requires 0 <= low < w && 0 < y < w && -y <= low + top * w < 2 * y
    ensures -1 <= top <= 1 && (top < 0 <==> low + top * w < 0)
  {
    if top <= -2 {
      MulMonotone(top, -2, w);
    } else if top >= 2 {
      MulMonotone(2, top, w);
    }
  }

  /** The remainder after a step, as a number. */
  lemma StepRemainder(a: seq<int>, x: seq<int>, b: seq<int>, offset: nat, a': seq<int>, top: int, borrow: int, dig: int)
    requires Difference(a, x, offset, a', top, borrow) && |a| == |b| + 1 + offset
    requires Val(x[..|b| + 1]) == dig * Val(b)
    ensures Val(a'[..|a| - 1]) + top * Pow(|a| - 1) == Val(a) - dig * Scaled(b, offset)
    ensures 0 <= Val(a'[..|a| - 1]) < Pow(|a| - 1)
  {
    ScaledIsProduct(b, offset);
    Swap(Pow(offset), dig, Val(b));
    ValBound(a'[..|a| - 1]);
  }

  lemma Swap(p: int, d: int, v: int)
    ensures p * (d * v) == d * (v * p)
  {
  }

  lemma MulLess(a: int, b: int, p: int)
    requires a < b && p > 0
    ensures a * p < b * p
  {
  }

  /** A one above the top digit is folded into it; the folded digit still fits. */
  function Folded(a: seq<int>): seq<int>
    requires |a| >= 2
  {
    var t := a[..|a| - 1];
    if a[|a| - 1] != 0 then t[|t| - 1 := t[|t| - 1] + 100] else t
  }

  lemma FoldKeepsValue(a: seq<int>, y: int)
    requires |a| >= 2 && Digits(a) && a[|a| - 1] <= 1
    requires 100 * Val(a) < LIMIT * y && y < Pow(|a| - 1)
    ensures Partial(Folded(a)) && Val(Folded(a)) == Val(a)
  {
    var n := |a| - 2;
    assert a[..n + 1][..n] == a[..n] && a[..n + 1][n] == a[n];
    if a[n + 1] != 0 {
      var f := Folded(a);
      assert f[..n] == a[..n] && f[n] == a[n] + 100;
      assert Pow(n + 1) == 100 * Pow(n);
      ValBound(a[..n]);
      FoldedFits(Val(a[..n]), a[n], Pow(n), y);
    }
  }

  lemma FoldedFits(low: int, d: int, w: int, y: int)
    requires low >= 0 && w > 0 && y < 100 * w && 100 * (low + d * w + 100 * w) < LIMIT * y
    ensures (d + 100) * w == d * w + 100 * w && d + 100 < LIMIT
  {
    Spread(d, 100, w);
    Cancel(d + 100, LIMIT, w);
  }

  lemma InnerStep(n: int, b: seq<int>, a: seq<int>, p: seq<int>, offset: nat, dig: int, x: seq<int>,
                  a': seq<int>, top: int, borrow: int)
    requires Dividing(n, b, a, p, offset) && offset > 0
    requires InnerDigit(dig, Val(a), Scaled(b, offset))
    requires Difference(a, x, offset, a', top, borrow) && Val(x[..|b| + 1]) == dig * Val(b)
    ensures borrow == 0 && Digits(a') && a'[|a| - 1] <= 1
    ensures Dividing(n, b, Folded(a'), p[offset := dig], offset - 1)
  {
    var z := Scaled(b, offset);
    InnerFold(b, a, offset, dig, x, a', top, borrow);
    PutDigit(p, offset, dig);
    InnerArithmetic(n, Val(a), Val(a'), z, dig, Val(p[offset + 1..]), Val(p[offset := dig][offset..]));
  }

  lemma InnerFold(b: seq<int>, a: seq<int>, offset: nat, dig: int, x: seq<int>, a': seq<int>, top: int, borrow: int)
    requires Divisor(b) && |a| == |b| + 1 + offset && offset > 0
    requires InnerDigit(dig, Val(a), Scaled(b, offset))
    requires Difference(a, x, offset, a', top, borrow) && Val(x[..|b| + 1]) == dig * Val(b)
    ensures borrow == 0 && Digits(a') && a'[|a| - 1] <= 1 && |a'| == |a|
    ensures Partial(Folded(a')) && Val(Folded(a')) == Val(a') == Val(a) - dig * Scaled(b, offset)
    ensures Val(a') < LIMIT * Scaled(b, offset - 1)
  {
    InnerDifference(b, a, offset, dig, x, a', top, borrow);
    ScaledBounds(b, offset);
    FoldKeepsValue(a', Scaled(b, offset));
  }

  /** The quotient digits from offset on, once the digit at offset is put in. */
  lemma PutDigit(p: seq<int>, offset: nat, dig: int)
    requires offset < |p| && Loose(p[offset + 1..], LIMIT) && 0 <= dig <= LIMIT
    ensures Loose(p[offset := dig][offset..], LIMIT)
    ensures Val(p[offset := dig][offset..]) == dig + 100 * Val(p[offset + 1..])
  {
    assert p[offset := dig][offset..] == [dig] + p[offset + 1..];
    ConsVal(dig, p[offset + 1..]);
  }

  lemma InnerArithmetic(n: int, v: int, v': int, z: int, dig: int, q: int, q': int)
    requires n == v + (100 * z) * q && v' == v - dig * z && q' == dig + 100 * q
    ensures n == v' + z * q'
  {
    NextQuotient(z, dig, q);
  }

  lemma InnerDifference(b: seq<int>, a: seq<int>, offset: nat, dig: int, x: seq<int>, a': seq<int>, top: int,
                        borrow: int)
    requires Divisor(b) && |a| == |b| + 1 + offset
    requires InnerDigit(dig, Val(a), Scaled(b, offset))
    requires Difference(a, x, offset, a', top, borrow) && Val(x[..|b| + 1]) == dig * Val(b)
    ensures borrow == 0 && Digits(a') && a'[|a| - 1] <= 1
    ensures Val(a') == Val(a) - dig * Scaled(b, offset) && 100 * Val(a') < LIMIT * Scaled(b, offset)
  {
    var z := Scaled(b, offset);
    StepRemainder(a, x, b, offset, a', top, borrow, dig);
    ScaledBounds(b, offset);
    TopOfDifference(Val(a'[..|a| - 1]), top, Pow(|a| - 1), z);
    WrappedValue(a', top);
  }

  lemma ConsVal(d: int, s: seq<int>)
    ensures Val([d] + s) == d + 100 * Val(s)
  {
    ValConcat([d], s);
    assert [d][..0] == [];
    assert Pow(1) == 100 && Pow(0) == 1;
  }

  lemma NextQuotient(z: int, dig: int, q: int)
    ensures z * (dig + 100 * q) == dig * z + (100 * z) * q
  {
  }

  /** A difference that came out negative reads as itself plus a borrow from above. */
  lemma WrappedValue(a': seq<int>, top: int)
    requires a' != [] && -1 <= top <= 1 && Digits(a'[..|a'| - 1])
    requires a'[|a'| - 1] == if top < 0 then top + 100 else top
    ensures Digits(a') && Val(a') - Owed(if top < 0 then 1 else 0, |a'|) == Val(a'[..|a'| - 1]) + top * Pow(|a'| - 1)
  {
    assert Digits(a') by { assert forall i :: 0 <= i < |a'| - 1 ==> a'[i] == a'[..|a'| - 1][i]; }
    assert Pow(|a'|) == 100 * Pow(|a'| - 1);
    if top < 0 {
      assert 99 * Pow(|a'| - 1) - 100 * Pow(|a'| - 1) == -1 * Pow(|a'| - 1);
    }
  }

  lemma LastDifference(b: seq<int>, a: seq<int>, dig: int, under: bool, x: seq<int>, a': seq<int>, top: int,
                       borrow: int)
    requires Divisor(b) && Partial(a) && |a| == |b| + 1
    requires LastDigit(dig, under, Val(a), Scaled(b, 0))
    requires Difference(a, x, 0, a', top, borrow) && Val(x[..|b| + 1]) == dig * Val(b)
    ensures Digits(a') && Val(a') - Owed(borrow, |a|) == Val(a) - dig * Val(b)
    ensures borrow == 1 ==> !under && dig > 0 && a'[|b|] == 99 && Val(a') - Pow(|a|) >= -Val(b)
    ensures borrow == 0 ==> Val(a') < if under then 2 * Val(b) else Val(b)
  {
    StepRemainder(a, x, b, 0, a', top, borrow, dig);
    ScaledBounds(b, 0);
    TopOfDifference(Val(a'[..|a| - 1]), top, Pow(|a| - 1), Val(b));
    WrappedValue(a', top);
    PartialPositive(a);
  }

  lemma PartialPositive(a: seq<int>)
    requires Partial(a)
    ensures Val(a) >= 0
  {
    var n := |a| - 1;
    ValBound(a[..n]);
    MulMonotone(0, a[n], Pow(n));
  }

  lemma LastStep(n: int, b: seq<int>, a: seq<int>, p: seq<int>, dig: int, under: bool, x: seq<int>,
                 a': seq<int>, top: int, borrow: int)
    requires Dividing(n, b, a, p, 0)
    requires LastDigit(dig, under, Val(a), Scaled(b, 0))
    requires Difference(a, x, 0, a', top, borrow) && Val(x[..|b| + 1]) == dig * Val(b)
    ensures Divided(n, b, a', p[0 := dig], under, borrow)
  {
    LastDifference(b, a, dig, under, x, a', top, borrow);
    ScaledBounds(b, 0);
    assert p[0 := dig] == [dig] + p[1..];
    ConsVal(dig, p[1..]);
    NextQuotient(Val(b), dig, Val(p[1..]));
  }

  /** One pass of the division loop. */
  method DivideDigit(p: Blk, divd: Blk, divr: Blk, divxyz: Blk, offset: nat, c: int, magic: bool, ghost n: int)
    returns (dig: int, under: bool, divcarry: int)
    requires p != divd && p != divr && p != divxyz && divd != divr && divd != divxyz && divr != divxyz
    requires Dividing(n, divr.buf, divd.buf, p.buf, offset) && p.rd == offset + 1
    requires c == Key(divr.buf) && magic == (divr.buf[|divr.buf| - 1] < 10)
    modifies p, divd, divr`rd, divxyz
    ensures p.rd == offset && p.buf == old(p.buf)[offset := dig] && 0 <= dig <= LIMIT
    ensures divd.rd <= |divd.buf|
    ensures offset > 0 ==> Dividing(n, divr.buf, divd.buf, p.buf, offset - 1)
    ensures offset == 0 ==> Divided(n, divr.buf, divd.buf, p.buf, under, divcarry) && divd.rd == |divr.buf|
  {
    ghost var a, b, q := divd.buf, divr.buf, p.buf;
    ScaledIsProduct(b, offset);
    GuessIsGood(a, b, offset, Scaled(b, offset));
    dig, under := TrialDigit(divd, c, magic, offset);
    MultiplyDivisor(divxyz, divr, dig);
    ghost var x := divxyz.buf;
    ghost var top;
    divcarry, top := SubtractProduct(divd, divxyz, offset);
    ghost var a' := divd.buf;
    if offset > 0 {
      InnerStep(n, b, a, q, offset, dig, x, a', top, divcarry);
    } else {
      LastStep(n, b, a, q, dig, under, x, a', top, divcarry);
    }
    p.StepBack();
    p.AlterC(dig);
    p.StepBack();
    DropTop(divd, offset);
  }

  /** The end of a pass: before the last step the top digit is dropped, folded into the next if it is one. */
  method DropTop(divd: Blk, offset: nat)
    requires |divd.buf| >= 2 && Digits(divd.buf) && (offset > 0 ==> Partial(Folded(divd.buf)))
    modifies divd
    ensures offset > 0 ==> divd.buf == Folded(old(divd.buf)) && divd.rd <= |divd.buf|
    ensures offset == 0 ==> divd.buf == old(divd.buf) && divd.rd == |divd.buf| - 1
  {
    divd.FsFile();
    var d := divd.BackC();
    if d != 0 && offset != 0 {
      d := divd.BackC();
      divd.AlterC(d + 100);
    }
    if offset > 0 {
      divd.DropLast();
    }
  }

  // ----- putting the digits right ------------------------------------------

  /** The quotient and remainder are right; quotient digits may still be a little over 99. */
  predicate Settled(n: int, b: seq<int>, a: seq<int>, p: seq<int>) {
    Digits(a) && Loose(p, LIMIT + 1) && n == Val(a) + Val(b) * Val(p) && Val(a) < Val(b)
  }

  lemma AdjustFirst(p: seq<int>, d: int)
    requires p != []
    ensures Val(p[0 := d]) == Val(p) + d - p[0]
  {
    assert p == [p[0]] + p[1..] && p[0 := d] == [d] + p[1..];
    ConsVal(p[0], p[1..]);
    ConsVal(d, p[1..]);
  }

  lemma Carried(v: int, q: int, d: int)
    ensures v * (q + d) == v * q + v * d
  {
  }

  /** A lowered last digit is raised again when a whole divisor is still left in the remainder. */
  method RaiseDigit(p: Blk, divd: Blk, divr: Blk, dig: int, ghost n: int) returns (divd': Blk)
    requires p != divd && p != divr && divd != divr && p.rd == 0
    requires Divided(n, divr.buf, divd.buf, p.buf, true, 0) && p.buf[0] == dig
    modifies p, divd`rd
    ensures divd' == divd || fresh(divd')
    ensures Settled(n, divr.buf, divd'.buf, p.buf)
  {
    ghost var b, q := divr.buf, p.buf;
    var px := new Blk.Copy(divr, |divr.buf|);
    ChSign(px);
    var ps := Add(px, divd);
    SignOfNumber(ps.buf);
    ps.FsFile();
    if |ps.buf| > 0 {
      var top := ps.BackC();
      if top < 0 {
        return divd;
      }
    }
    AdjustFirst(q, dig + 1);
    Carried(Val(b), Val(q), 1);
    p.AlterC(dig + 1);
    divd' := ps;
  }

  /** A last digit that was too high is lowered and a divisor is given back to the remainder. */
  method LowerDigit(p: Blk, divd: Blk, divr: Blk, dig: int, ghost n: int) returns (divd': Blk)
    requires p != divd && p != divr && divd != divr && p.rd == 0 && divd.rd == |divr.buf|
    requires Divided(n, divr.buf, divd.buf, p.buf, false, 1) && p.buf[0] == dig
    modifies p, divd, divr`rd
    ensures fresh(divd')
    ensures Settled(n, divr.buf, divd'.buf, p.buf)
  {
    ghost var b, q, a := divr.buf, p.buf, divd.buf;
    AdjustFirst(q, dig - 1);
    Carried(Val(b), Val(q), -1);
    p.AlterC(dig - 1);
    divd.AlterC(-1);
    MarkTop(a);
    divd' := Add(divr, divd);
    SignOfNumber(divd'.buf);
    ValBound(a);
  }

  /** Writing -1 over a top digit of 99 subtracts the weight above it. */
  lemma MarkTop(a: seq<int>)
    requires a != [] && a[|a| - 1] == 99
    ensures Val(a[|a| - 1 := -1]) == Val(a) - Pow(|a|)
  {
    var n := |a| - 1;
    assert a[n := -1][..n] == a[..n];
    assert Pow(n + 1) == 100 * Pow(n);
  }

  /** q[..i] has been brought into proper digits in p, with `carry` to go into digit i. */
  predicate Carrying(q: seq<int>, p: seq<int>, i: nat, carry: int) {
    && i <= |q| == |p| && Digits(p[..i]) && (carry == 0 || carry == 1)
    && (forall j :: i <= j < |q| ==> p[j] == q[j])
    && Val(p[..i]) + Owed(carry, i) == Val(q[..i])
  }

  lemma CarryStep(q: seq<int>, p: seq<int>, i: nat, carry: int, d: int, carry': int)
    requires Carrying(q, p, i, carry) && i < |q| && 0 <= d < 100 && (carry' == 0 || carry' == 1)
    requires q[i] + carry == d + 100 * carry'
    ensures Carrying(q, p[i := d], i + 1, carry')
  {
    PrefixPut(p, i, d);
    PrefixNext(q, i);
    CarryArithmetic(Val(p[..i]), Val(q[..i]), Pow(i), carry, q[i], d, carry');
  }

  lemma PrefixNext(q: seq<int>, i: nat)
    requires i < |q|
    ensures Val(q[..i + 1]) == Val(q[..i]) + q[i] * Pow(i)
  {
    assert q[..i + 1] == q[..i] + [q[i]];
    ValSnoc(q[..i], q[i]);
  }

  lemma PrefixPut(p: seq<int>, i: nat, d: int)
    requires i < |p|
    ensures Val(p[i := d][..i + 1]) == Val(p[..i]) + d * Pow(i)
    ensures Digits(p[..i]) && 0 <= d < 100 ==> Digits(p[i := d][..i + 1])
  {
    PrefixNext(p[i := d], i);
    assert p[i := d][..i] == p[..i];
    assert p[i := d][..i + 1] == p[..i] + [d];
  }

  lemma CarryArithmetic(v: int, v': int, w: int, carry: int, q: int, d: int, carry': int)
    requires v + (if carry == 0 then 0 else w) == v' && q + carry == d + 100 * carry'
    requires (carry == 0 || carry == 1) && (carry' == 0 || carry' == 1)
    ensures v + d * w + (if carry' == 0 then 0 else 100 * w) == v' + q * w
  {
    Spread(d, 100 * carry' - carry, w);
  }

  /** The final pass over the quotient, which leaves every digit in 0..99. */
  method CarryPass(p: Blk)
    requires Loose(p.buf, LIMIT + 1)
    modifies p
    ensures Digits(p.buf) && Val(p.buf) == Val(old(p.buf))
  {
    ghost var q := p.buf;
    p.Rewind();
    var divcarry := 0;
    while !p.AtEnd()
      invariant p.rd <= |q| && Carrying(q, p.buf, p.rd, divcarry)
      decreases |p.buf| - p.rd
    {
      ghost var carry := divcarry;
      var d := p.LookC() + divcarry;
      divcarry := 0;
      if d >= 100 {
        d := d - 100;
        divcarry := 1;
      }
      CarryStep(q, p.buf, p.rd, carry, d, divcarry);
      p.AlterC(d);
    }
    assert q[..|q|] == q && p.buf[..|q|] == p.buf;
    if divcarry != 0 {
      ValSnoc(p.buf, divcarry);
      p.AlterC(divcarry);
    }
  }

  // ----- the whole division ------------------------------------------------

  /** The division loop: one quotient digit for each offset, from the top down. */
  method DigitLoop(divd: Blk, divr: Blk, divxyz: Blk) returns (p: Blk, dig: int, under: bool, divcarry: int)
    requires divd != divr && divd != divxyz && divr != divxyz
    requires Digits(divd.buf) && Divisor(divr.buf) && |divd.buf| >= |divr.buf|
    modifies divd, divr`rd, divxyz
    ensures fresh(p) && p.rd == 0 && divd.rd == |divr.buf|
    ensures Divided(Val(old(divd.buf)), divr.buf, divd.buf, p.buf, under, divcarry) && p.buf[0] == dig
  {
    ghost var n := Val(divd.buf);
    var offset := |divd.buf| - |divr.buf|;
    p := new Blk(0);
    p.SeekC(offset + 1);
    StartDividing(divd.buf, divr.buf, p.buf, offset);
    divd.PutC(0);
    var c, magic := DivisorKey(divr);
    dig, under, divcarry := 0, false, 0;
    while offset >= 0
      invariant -1 <= offset
      invariant offset >= 0 ==> Dividing(n, divr.buf, divd.buf, p.buf, offset) && p.rd == offset + 1
      invariant offset < 0 ==> Divided(n, divr.buf, divd.buf, p.buf, under, divcarry)
      invariant offset < 0 ==> p.buf[0] == dig && p.rd == 0 && divd.rd == |divr.buf|
    {
      dig, under, divcarry := DivideDigit(p, divd, divr, divxyz, offset, c, magic, n);
      offset := offset - 1;
    }
  }

  /** At most one of the two repairs of the last digit is needed. */
  method Repair(p: Blk, divd: Blk, divr: Blk, dig: int, under: bool, divcarry: int, ghost n: int) returns (rest: Blk)
    requires p != divd && p != divr && divd != divr && p.rd == 0 && divd.rd == |divr.buf|
    requires Divided(n, divr.buf, divd.buf, p.buf, under, divcarry) && p.buf[0] == dig
    modifies p, divd, divr`rd
    ensures rest == divd || fresh(rest)
    ensures Settled(n, divr.buf, rest.buf, p.buf)
  {
    rest := divd;
    if under {
      rest := RaiseDigit(p, divd, divr, dig, n);
    }
    if divcarry != 0 {
      rest := LowerDigit(p, divd, divr, dig, n);
    }
  }

  /** Division of a dividend with at least as many digits as the divisor: the digit loop and its repairs. */
  method LongDivide(divd: Blk, divr: Blk, divxyz: Blk) returns (p: Blk, rest: Blk)
    requires divd != divr && divd != divxyz && divr != divxyz
    requires Digits(divd.buf) && Divisor(divr.buf) && |divd.buf| >= |divr.buf|
    modifies divd, divr`rd, divxyz
    ensures fresh(p) && (rest == divd || fresh(rest)) && p != rest
    ensures Normal(p.buf) && Digits(p.buf) && Normal(rest.buf) && Digits(rest.buf)
    ensures Val(old(divd.buf)) == Val(rest.buf) + Val(divr.buf) * Val(p.buf) && Val(rest.buf) < Val(divr.buf)
  {
    ghost var n := Val(divd.buf);
    var dig, under, divcarry;
    p, dig, under, divcarry := DigitLoop(divd, divr, divxyz);
    rest := Repair(p, divd, divr, dig, under, divcarry, n);
    CarryPass(p);
    StripZeros(p);
    StripZeros(rest);
  }

  lemma StartDividing(a: seq<int>, b: seq<int>, p: seq<int>, offset: nat)
    requires Digits(a) && Divisor(b) && |a| == |b| + offset && |p| == offset + 1
    ensures Dividing(Val(a), b, a + [0], p, offset)
  {
    ValSnoc(a, 0);
    ValBound(a);
    TopDigitBound(b);
    PowAdd(|b| - 1, offset);
    ScaledIsProduct(b, offset);
    MulMonotone(Pow(|b| - 1), Val(b), Pow(offset));
    assert Pow(|a|) == 100 * Pow(|a| - 1);
    assert p[offset + 1..] == [];
  }

  /** Complements a negative number in place. */
  method MakePositive(p: Blk) returns (negative: bool)
    requires Number(p.buf)
    modifies p
    ensures Digits(p.buf) && Val(p.buf) == Abs(Val(old(p.buf))) && negative == (Val(old(p.buf)) < 0)
    ensures Normal(old(p.buf)) || Compact(old(p.buf)) ==> Normal(p.buf)
    ensures !negative ==> p.buf == old(p.buf)
  {
    SignOfNumber(p.buf);
    negative := false;
    p.FsFile();
    if !p.AtBeg() {
      var c := p.BackC();
      if c == -1 {
        ChSign(p);
        negative := true;
        SignOfNumber(p.buf);
      }
    }
  }

  method NegateIf(p: Blk, negative: bool)
    requires Number(p.buf)
    modifies p
    ensures Number(p.buf) && Val(p.buf) == if negative then -Val(old(p.buf)) else Val(old(p.buf))
    ensures Normal(old(p.buf)) ==> Normal(p.buf)
  {
    if negative {
      ChSign(p);
    }
  }

  lemma ShorterIsLess(a: seq<int>, b: seq<int>)
    requires Digits(a) && Divisor(b) && |a| < |b|
    ensures 0 <= Val(a) < Val(b)
  {
    ValBound(a);
    TopDigitBound(b);
    PowMonotone(|a|, |b| - 1);
  }

  /** Putting the signs back on a division of magnitudes. */
  lemma SignedDivision(a: int, b: int, q: int, r: int)
    requires b != 0 && q >= 0 && 0 <= r < Abs(b) && Abs(a) == r + Abs(b) * q
    ensures IsDivision(a, b, if (a < 0) != (b < 0) then -q else q, if a < 0 then -r else r)
  {
    assert (-q) * b == q * (-b);
  }

  lemma SignsBack(a: int, b: int, dneg: bool, rneg: bool, q: int, r: int)
    requires b > 0 && q >= 0 && 0 <= r < b && a == r + b * q
    ensures a >= 0 && (dneg ==> a > 0) ==>
              IsDivision(if dneg then -a else a, if rneg then -b else b,
                         if dneg != rneg then -q else q, if dneg then -r else r)
  {
    if a >= 0 && (dneg ==> a > 0) {
      SignedDivision(if dneg then -a else a, if rneg then -b else b, q, r);
    }
  }

  /** The division of magnitudes; a dividend with fewer digits than the divisor is its own remainder. */
  method DivideMagnitudes(divd: Blk, divr: Blk, divxyz: Blk) returns (p: Blk, rest: Blk)
    requires divd != divr && divd != divxyz && divr != divxyz
    requires Digits(divd.buf) && Divisor(divr.buf)
    modifies divd, divr`rd, divxyz
    ensures fresh(p) && (rest == divd || fresh(rest)) && p != rest
    ensures Normal(p.buf) && Digits(p.buf) && Digits(rest.buf)
    ensures Normal(old(divd.buf)) || |old(divd.buf)| >= |divr.buf| ==> Normal(rest.buf)
    ensures Val(old(divd.buf)) == Val(rest.buf) + Val(divr.buf) * Val(p.buf)
    ensures 0 <= Val(rest.buf) < Val(divr.buf) && Val(p.buf) >= 0
  {
    if |divd.buf| < |divr.buf| {
      p := new Blk(0);
      rest := divd;
      ShorterIsLess(divd.buf, divr.buf);
    } else {
      p, rest := LongDivide(divd, divr, divxyz);
      ValBound(p.buf);
      ValBound(rest.buf);
    }
  }

  /** The division of magnitudes with the signs put back. */
  method DivideSigned(divd: Blk, divr: Blk, divxyz: Blk, dneg: bool, rneg: bool) returns (p: Blk, rest: Blk)
    requires divd != divr && divd != divxyz && divr != divxyz
    requires Digits(divd.buf) && Divisor(divr.buf)
    modifies divd, divr`rd, divxyz
    ensures fresh(p) && (rest == divd || fresh(rest)) && p != rest
    ensures Normal(p.buf) && Number(rest.buf)
    ensures Normal(old(divd.buf)) || |old(divd.buf)| >= |divr.buf| ==> Normal(rest.buf)
    ensures var a, b := Val(old(divd.buf)), Val(divr.buf);
            a >= 0 && (dneg ==> a > 0) ==>
              IsDivision(if dneg then -a else a, if rneg then -b else b, Val(p.buf), Val(rest.buf))
  {
    TopDigitBound(divr.buf);
    ghost var a, b := Val(divd.buf), Val(divr.buf);
    p, rest := DivideMagnitudes(divd, divr, divxyz);
    SignsBack(a, b, dneg, rneg, Val(p.buf), Val(rest.buf));
    NegateIf(p, dneg != rneg);
    NegateIf(rest, dneg);
  }

  /**
   * div: the quotient as the result and the remainder in the global rem. A zero divisor yields an empty
   * quotient and no remainder.
   */
  method Div(ddivd: Blk, ddivr: Blk, divxyz: Blk) returns (p: Blk, rem: Blk?)
    requires ddivd != ddivr && divxyz != ddivd && divxyz != ddivr
    requires Number(ddivd.buf) && Normal(ddivr.buf)
    modifies ddivr`rd, divxyz
    ensures fresh(p) && (rem != null ==> fresh(rem) && rem != p)
    ensures Val(ddivr.buf) == 0 ==> rem == null && p.buf == []
    ensures Val(ddivr.buf) != 0 ==>
              rem != null && Normal(p.buf) && Number(rem.buf) &&
              IsDivision(Val(ddivd.buf), Val(ddivr.buf), Val(p.buf), Val(rem.buf))
    ensures rem != null && (Normal(ddivd.buf) || Compact(ddivd.buf)) ==> Normal(rem.buf)
    ensures rem != null && Digits(ddivd.buf) && Digits(ddivr.buf) && |ddivd.buf| >= |ddivr.buf| ==> Normal(rem.buf)
  {
    ZeroIsEmpty(ddivr.buf);
    if |ddivr.buf| == 0 {
      p := new Blk(0);
      return p, null;
    }
    SignOfNumber(ddivr.buf);
    SignOfNumber(ddivd.buf);
    var divr, rneg := Magnitude(ddivr);
    var divd := new Blk.Copy(ddivd, |ddivd.buf|);
    var dneg := MakePositive(divd);
    var rest;
    p, rest := DivideSigned(divd, divr, divxyz, dneg, rneg);
    rem := rest;
  }
}
