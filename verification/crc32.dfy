// crc32: the table driven register against one that takes a message bit by bit.

/** dotable, calc and sum of sys/src/cmd/crc32.c. Words are natural numbers, with the bit operations spelt out. */
module Crc32 {

  // ----- exclusive or --------------------------------------------------------------

  function Xor(a: nat, b: nat): nat
    decreases a + b
  {
    if a == 0 then b else if b == 0 then a
    else (if a % 2 == b % 2 then 0 else 1) + 2 * Xor(a / 2, b / 2)
  }

  lemma XorBits(a: nat, b: nat)
    ensures Xor(a, b) % 2 == (if a % 2 == b % 2 then 0 else 1) && Xor(a, b) / 2 == Xor(a / 2, b / 2)
  {
    if a > 0 && b > 0 {
      var x := Xor(a / 2, b / 2);
      assert Xor(a, b) == (if a % 2 == b % 2 then 0 else 1) + 2 * x;
    }
  }

  /** A word is known by its lowest bit and the rest. */
  lemma SameBits(a: nat, b: nat)
    requires a % 2 == b % 2 && a / 2 == b / 2
    ensures a == b
  {
  }

  lemma {:induction false} XorCommutes(a: nat, b: nat)
    ensures Xor(a, b) == Xor(b, a)
    decreases a + b
  {
    if a > 0 && b > 0 {
      XorCommutes(a / 2, b / 2);
    }
  }

  lemma {:induction false} XorAssociates(a: nat, b: nat, c: nat)
    ensures Xor(Xor(a, b), c) == Xor(a, Xor(b, c))
    decreases a + b + c
  {
    if a > 0 && b > 0 && c > 0 {
      XorAssociates(a / 2, b / 2, c / 2);
      XorBits(a, b);
      XorBits(b, c);
      XorBits(Xor(a, b), c);
      XorBits(a, Xor(b, c));
      SameBits(Xor(Xor(a, b), c), Xor(a, Xor(b, c)));
    }
  }

  lemma {:induction false} XorSelf(a: nat)
    ensures Xor(a, a) == 0
  {
    if a > 0 {
      XorSelf(a / 2);
    }
  }

  /** Equal terms cancel. */
  lemma XorCancels(p: nat, a: nat, b: nat)
    ensures Xor(Xor(p, a), Xor(p, b)) == Xor(a, b)
  {
    XorCommutes(p, a);
    XorAssociates(a, p, Xor(p, b));
    XorAssociates(p, p, b);
    XorSelf(p);
  }

  // ----- the register ------------------------------------------------------------

  /** One shift of the register, without input. */
  function Shift(poly: nat, c: nat): nat {
    if c % 2 == 1 then Xor(poly, c / 2) else c / 2
  }

  function Shifts(poly: nat, c: nat, k: nat): nat {
    if k == 0 then c else Shift(poly, Shifts(poly, c, k - 1))
  }

  /** b without its k lowest bits. */
  function Rest(b: nat, k: nat): nat {
    if k == 0 then b else Rest(b, k - 1) / 2
  }

  /** The register after the k lowest bits of b have been fed to it, the lowest first. */
  function FeedBits(poly: nat, c: nat, b: nat, k: nat): nat {
    if k == 0 then c else Shift(poly, Xor(FeedBits(poly, c, b, k - 1), Rest(b, k - 1) % 2))
  }

  /** The register after a message, each byte of which goes in one bit at a time. */
  function Serial(poly: nat, init: nat, msg: seq<nat>): nat {
    if msg == [] then init else FeedBits(poly, Serial(poly, init, msg[..|msg| - 1]), msg[|msg| - 1], 8)
  }

  lemma {:induction false} SerialConcat(poly: nat, init: nat, a: seq<nat>, b: seq<nat>)
    ensures Serial(poly, init, a + b) == Serial(poly, Serial(poly, init, a), b)
    decreases |b|
  {
    if b == [] {
      assert a + b == a;
    } else {
      assert (a + b)[..|a + b| - 1] == a + b[..|b| - 1];
      SerialConcat(poly, init, a, b[..|b| - 1]);
    }
  }

  /** The shift is linear. */
  lemma ShiftAdds(poly: nat, a: nat, b: nat)
    ensures Shift(poly, Xor(a, b)) == Xor(Shift(poly, a), Shift(poly, b))
  {
    XorBits(a, b);
    var x, y := a / 2, b / 2;
    if a % 2 == 1 && b % 2 == 1 {
      XorCancels(poly, x, y);
    } else if a % 2 == 1 {
      XorAssociates(poly, x, y);
    } else if b % 2 == 1 {
      XorCommutes(x, Xor(poly, y));
      XorAssociates(poly, y, x);
      XorCommutes(y, x);
    }
  }

  /** What a shift does beyond halving depends on the lowest bit alone. */
  lemma ShiftSplits(poly: nat, c: nat)
    ensures Shift(poly, c) == Xor(Shift(poly, c % 2), c / 2)
  {
  }

  /** Feeding the bits of b one at a time, or all at once before as many shifts. */
  lemma {:induction false} FeedAtOnce(poly: nat, c: nat, b: nat, k: nat)
    ensures Shifts(poly, Xor(c, b), k) == Xor(FeedBits(poly, c, b, k), Rest(b, k))
  {
    if k > 0 {
      FeedAtOnce(poly, c, b, k - 1);
      var d, t := FeedBits(poly, c, b, k - 1), Rest(b, k - 1);
      ShiftAdds(poly, d, t);
      ShiftAdds(poly, d, t % 2);
      ShiftSplits(poly, t);
      XorAssociates(Shift(poly, d), Shift(poly, t % 2), t / 2);
    }
  }

  /** Only the bits fed matter. */
  lemma {:induction false} FeedSameBits(poly: nat, c: nat, a: nat, b: nat, k: nat)
    requires forall j :: 0 <= j < k ==> Rest(a, j) % 2 == Rest(b, j) % 2
    ensures FeedBits(poly, c, a, k) == FeedBits(poly, c, b, k)
  {
    if k > 0 {
      FeedSameBits(poly, c, a, b, k - 1);
      assert Rest(a, k - 1) % 2 == Rest(b, k - 1) % 2;
    }
  }

  /** A bit dropped from a word and from its low part, which has the same bit. */
  lemma DropBit(x: nat, t: nat, l: nat, m: nat)
    requires x == 2 * t + l && l < 2 * m
    ensures x / 2 == t + l / 2 && l / 2 < m && x % 2 == l % 2
  {
  }

  /** A word of which the low byte is l, without its j lowest bits. */
  lemma RestOfWord(h: nat, l: nat)
    requires l < 256
    ensures var x := 256 * h + l;
            Rest(x, 8) == h && Rest(l, 8) == 0 && forall j :: 0 <= j < 8 ==> Rest(x, j) % 2 == Rest(l, j) % 2
  {
    var x := 256 * h + l;
    DropBit(Rest(x, 0), 128 * h, Rest(l, 0), 128);
    DropBit(Rest(x, 1), 64 * h, Rest(l, 1), 64);
    DropBit(Rest(x, 2), 32 * h, Rest(l, 2), 32);
    DropBit(Rest(x, 3), 16 * h, Rest(l, 3), 16);
    DropBit(Rest(x, 4), 8 * h, Rest(l, 4), 8);
    DropBit(Rest(x, 5), 4 * h, Rest(l, 5), 4);
    DropBit(Rest(x, 6), 2 * h, Rest(l, 6), 2);
    DropBit(Rest(x, 7), h, Rest(l, 7), 1);
  }

  /** Eight shifts of a word, by its low byte and the rest: the step through the table. */
  lemma EightShifts(poly: nat, x: nat)
    ensures Shifts(poly, x, 8) == Xor(Shifts(poly, x % 256, 8), x / 256)
  {
    var l := x % 256;
    RestOfWord(x / 256, l);
    FeedAtOnce(poly, 0, x, 8);
    FeedAtOnce(poly, 0, l, 8);
    FeedSameBits(poly, 0, x, l, 8);
    XorCommutes(FeedBits(poly, 0, l, 8), 0);
  }

  lemma {:induction false} XorRest(b: nat, c: nat, k: nat)
    ensures Rest(Xor(b, c), k) == Xor(Rest(b, k), Rest(c, k))
  {
    if k > 0 {
      XorRest(b, c, k - 1);
      XorBits(Rest(b, k - 1), Rest(c, k - 1));
    }
  }

  lemma RestIsQuotient(x: nat)
    ensures Rest(x, 8) == x / 256
  {
    RestOfWord(x / 256, x % 256);
  }

  /** What lies above the low byte of c is not touched by a byte. */
  lemma HighBytes(b: nat, c: nat)
    requires b < 256
    ensures Xor(b, c) / 256 == c / 256
  {
    RestIsQuotient(b);
    RestIsQuotient(c);
    RestIsQuotient(Xor(b, c));
    XorRest(b, c, 8);
  }

  /** A byte through the table is a byte fed bit by bit. */
  lemma TableStep(poly: nat, c: nat, b: nat)
    requires b < 256
    ensures Xor(Shifts(poly, Xor(b, c) % 256, 8), c / 256) == FeedBits(poly, c, b, 8)
  {
    EightShifts(poly, Xor(b, c));
    HighBytes(b, c);
    XorCommutes(b, c);
    FeedAtOnce(poly, c, b, 8);
    RestIsQuotient(b);
    XorCommutes(FeedBits(poly, c, b, 8), 0);
  }

  predicate Bytes(msg: seq<nat>) {
    forall k :: 0 <= k < |msg| ==> msg[k] < 256
  }

  /** The table of eight shifts for every byte. */
  ghost predicate IsTable(table: array<nat>, poly: nat)
    reads table
  {
    table.Length == 256 && forall n :: 0 <= n < 256 ==> table[n] == Shifts(poly, n, 8)
  }

  /** dotable. */
  method DoTable(table: array<nat>, poly: nat)
    requires table.Length == 256
    modifies table
    ensures IsTable(table, poly)
  {
    for n := 0 to 256
      invariant forall m :: 0 <= m < n ==> table[m] == Shifts(poly, m, 8)
    {
      var c: nat := n;
      for k := 0 to 8
        invariant c == Shifts(poly, n, k)
      {
        c := if c % 2 == 1 then Xor(poly, c / 2) else c / 2;
      }
      table[n] := c;
    }
  }

  /** calc: the register after some bytes. */
  method Calc(table: array<nat>, ghost poly: nat, init: nat, buf: seq<nat>) returns (c: nat)
    requires IsTable(table, poly) && Bytes(buf)
    ensures c == Serial(poly, init, buf)
  {
    c := init;
    for i := 0 to |buf|
      invariant c == Serial(poly, init, buf[..i])
    {
      assert buf[..i + 1][..i] == buf[..i];
      TableStep(poly, c, buf[i]);
      c := Xor(table[Xor(buf[i], c) % 256], c / 256);
    }
    assert buf[..|buf|] == buf;
  }

  function Concat(chunks: seq<seq<nat>>): seq<nat> {
    if chunks == [] then [] else Concat(chunks[..|chunks| - 1]) + chunks[|chunks| - 1]
  }

  /** sum: the check of a file, however the reads cut it up. */
  method Sum(table: array<nat>, ghost poly: nat, init: nat, xor: nat, chunks: seq<seq<nat>>) returns (crc: nat)
    requires IsTable(table, poly) && forall k :: 0 <= k < |chunks| ==> Bytes(chunks[k])
    ensures crc == Xor(Serial(poly, Xor(init, xor), Concat(chunks)), xor)
  {
    crc := Xor(init, xor);
    for i := 0 to |chunks|
      invariant crc == Serial(poly, Xor(init, xor), Concat(chunks[..i]))
    {
      assert chunks[..i + 1][..i] == chunks[..i];
      SerialConcat(poly, Xor(init, xor), Concat(chunks[..i]), chunks[i]);
      crc := Calc(table, poly, crc, chunks[i]);
    }
    assert chunks[..|chunks|] == chunks;
    crc := Xor(crc, xor);
  }

  /** A word of w bits. */
  predicate Word(x: nat, w: nat) {
    Rest(x, w) == 0
  }

  lemma {:induction false} RestOfHalf(c: nat, w: nat)
    ensures Rest(c / 2, w) == Rest(c, w) / 2
  {
    if w > 0 {
      RestOfHalf(c, w - 1);
    }
  }

  lemma {:induction false} RestOfBit(b: nat, w: nat)
    requires b < 2 && w > 0
    ensures Word(b, w)
  {
    if w > 1 {
      RestOfBit(b, w - 1);
    }
  }

  lemma {:induction false} FeedStaysWord(poly: nat, c: nat, b: nat, k: nat, w: nat)
    requires Word(poly, w) && Word(c, w) && w > 0
    ensures Word(FeedBits(poly, c, b, k), w)
  {
    if k > 0 {
      FeedStaysWord(poly, c, b, k - 1, w);
      var d, t := FeedBits(poly, c, b, k - 1), Rest(b, k - 1) % 2;
      RestOfBit(t, w);
      XorRest(d, t, w);
      RestOfHalf(Xor(d, t), w);
      XorRest(poly, Xor(d, t) / 2, w);
    }
  }

  /** The register never outgrows the width of its polynomial and its start, so nothing is lost in a 32 bit word. */
  lemma {:induction false} StaysWord(poly: nat, init: nat, msg: seq<nat>, w: nat)
    requires Word(poly, w) && Word(init, w) && w > 0
    ensures Word(Serial(poly, init, msg), w)
  {
    if msg != [] {
      StaysWord(poly, init, msg[..|msg| - 1], w);
      FeedStaysWord(poly, Serial(poly, init, msg[..|msg| - 1]), msg[|msg| - 1], 8, w);
    }
  }
}
