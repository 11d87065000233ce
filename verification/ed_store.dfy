// ed's temporary file: an append-only store of lines behind two block buffers.

/** getblock, blkio, putline and getline of sys/src/cmd/ed.c, in units of runes. */
module EdStore {

  /** Runes in a block of the temporary file. */
  const BLK := 1024

  /** Blocks in the temporary file. */
  const NBLK := 8191

  /** Runes in the line buffer. */
  const LBSIZE := 4096

  const NEWLINE: Rune := 10

  type Rune = nat

  /** A line as putline takes it from linebuf: runes up to the closing zero. */
  predicate IsLine(text: seq<Rune>) {
    |text| < LBSIZE && forall i :: 0 <= i < |text| ==> text[i] != 0
  }

  /** What putline stores of a line: the part before the first newline. */
  function Upto(text: seq<Rune>): (s: seq<Rune>)
    ensures s <= text && NEWLINE !in s
    ensures |s| < |text| ==> text[|s|] == NEWLINE
  {
    if text == [] || text[0] == NEWLINE then [] else [text[0]] + Upto(text[1..])
  }

  /** The advance of tline past n runes, closing zero included, which keeps handles even. */
  function Advance(n: nat): (a: nat)
    ensures n <= LBSIZE ==> n + 2 <= a <= n + 3 && a % 2 == 0
  {
    ((n + 3) % 0x8000) / 2 * 2
  }

  // ----- the store as blocks -----------------------------------------------

  /** The rune at address a, or -1 where nothing was ever written. */
  function At(m: map<int, seq<Rune>>, a: int): int {
    if a / BLK in m && |m[a / BLK]| == BLK then m[a / BLK][a % BLK] else -1
  }

  /** The line s with its closing zero stands at address h. */
  predicate Stands(m: map<int, seq<Rune>>, h: int, s: seq<Rune>) {
    && (forall a :: h <= a < h + |s| ==> At(m, a) == s[a - h] && s[a - h] != 0)
    && At(m, h + |s|) == 0
  }

  /** Every line stands at its handle, which is even, and below `end`. */
  predicate AllStand(m: map<int, seq<Rune>>, lines: map<int, seq<Rune>>, end: int) {
    forall h :: h in lines ==> 0 <= h && h % 2 == 0 && h + |lines[h]| < end && Stands(m, h, lines[h])
  }

  /** Reading on at address h + n of a line: either it ends there, or its next rune is found. */
  lemma NextRune(m: map<int, seq<Rune>>, block: int, off: nat, h: int, s: seq<Rune>, n: nat)
    requires Stands(m, h, s) && n <= |s| && off < BLK && h + n == block * BLK + off
    ensures block in m && |m[block]| == BLK
    ensures m[block][off] == 0 <==> n == |s|
    ensures n < |s| ==> m[block][off] == s[n] && s[..n + 1] == s[..n] + [s[n]]
  {
    assert (h + n) / BLK == block && (h + n) % BLK == off;
    assert n < |s| ==> At(m, h + n) == s[n];
  }

  /** A line put at the end joins the lines stored, and the next handle lies in the same block or the next. */
  lemma LineAdded(m: map<int, seq<Rune>>, lines: map<int, seq<Rune>>, tl: nat, s: seq<Rune>, end: int)
    requires AllStand(m, lines, tl) && tl % 2 == 0 && |s| < LBSIZE && end == tl + Advance(|s| + 1)
    requires (forall a :: tl <= a < tl + |s| ==> At(m, a) == s[a - tl] && s[a - tl] != 0) && At(m, tl + |s|) == 0
    ensures AllStand(m, lines[tl := s], end) && tl !in lines && end % 2 == 0
    ensures end / BLK == (tl + |s|) / BLK || end / BLK == (tl + |s|) / BLK + 1
  {
    var lines' := lines[tl := s];
    forall h | h in lines' ensures 0 <= h && h % 2 == 0 && h + |lines'[h]| < end && Stands(m, h, lines'[h]) {
      assert h != tl ==> h in lines;
    }
  }

  lemma TailStands(m: map<int, seq<Rune>>, h: int, s: seq<Rune>)
    requires Stands(m, h, s) && s != []
    ensures Stands(m, h + 1, s[1..])
  {
    forall a | h + 1 <= a < h + |s| ensures At(m, a) == s[1..][a - h - 1] && s[1..][a - h - 1] != 0 {
      assert At(m, a) == s[a - h];
    }
  }

  /** Adding a block, or changing runes from `end` on, leaves alone the lines below `end`. */
  lemma LinesKept(m: map<int, seq<Rune>>, m': map<int, seq<Rune>>, lines: map<int, seq<Rune>>, end: int)
    requires AllStand(m, lines, end)
    requires forall a :: a < end && At(m, a) >= 0 ==> At(m', a) == At(m, a)
    ensures AllStand(m', lines, end)
  {
    forall h | h in lines ensures Stands(m', h, lines[h]) {
      var s := lines[h];
      assert Stands(m, h, s);
      forall a | h <= a < h + |s| ensures At(m', a) == s[a - h] && s[a - h] != 0 {
        assert At(m, a) == s[a - h] && At(m, a) >= 0;
      }
    }
  }

  /** No line stored reaches into block b. */
  predicate Untouched(lines: map<int, seq<Rune>>, b: int) {
    forall h :: h in lines ==> h + |lines[h]| < b * BLK
  }

  /** The lines that end before block b. */
  function Ending(lines: map<int, seq<Rune>>, b: int): map<int, seq<Rune>> {
    map h | h in lines && h + |lines[h]| < b * BLK :: lines[h]
  }

  /** The addresses below `end` hold what they held. */
  ghost predicate SameBelow(m: map<int, seq<Rune>>, m': map<int, seq<Rune>>, end: int) {
    forall a :: a < end ==> At(m', a) == At(m, a)
  }

  lemma StandBelow(m: map<int, seq<Rune>>, m': map<int, seq<Rune>>, lines: map<int, seq<Rune>>, end: int)
    requires SameBelow(m, m', end) && AllStand(m, lines, end)
    ensures AllStand(m', lines, end)
  {
    LinesKept(m, m', lines, end);
  }

  /** Of the lines `was`, exactly those in `left` stand. */
  ghost predicate Left(m: map<int, seq<Rune>>, was: map<int, seq<Rune>>, left: map<int, seq<Rune>>) {
    forall h :: h in was ==> (h in left <==> Stands(m, h, was[h]))
  }

  predicate Below(lines: map<int, seq<Rune>>, end: int) {
    forall h :: h in lines ==> h + |lines[h]| < end
  }

  lemma StandsKept(m: map<int, seq<Rune>>, m': map<int, seq<Rune>>, h: int, s: seq<Rune>, end: int)
    requires SameBelow(m, m', end) && h + |s| < end && Stands(m, h, s)
    ensures Stands(m', h, s)
  {
    forall a | h <= a < h + |s| ensures At(m', a) == s[a - h] && s[a - h] != 0 {
      assert At(m, a) == s[a - h];
    }
  }

  lemma LeftKept(m: map<int, seq<Rune>>, m': map<int, seq<Rune>>, was: map<int, seq<Rune>>,
                 left: map<int, seq<Rune>>, end: int)
    requires SameBelow(m, m', end) && Below(was, end) && Left(m, was, left)
    ensures Left(m', was, left)
  {
    forall h | h in was ensures h in left <==> Stands(m', h, was[h]) {
      if Stands(m, h, was[h]) {
        StandsKept(m, m', h, was[h], end);
      } else if Stands(m', h, was[h]) {
        StandsKept(m', m, h, was[h], end);
      }
    }
  }

  lemma BelowTwice(m: map<int, seq<Rune>>, m': map<int, seq<Rune>>, m'': map<int, seq<Rune>>, end: int)
    requires SameBelow(m, m', end) && SameBelow(m', m'', end)
    ensures SameBelow(m, m'', end)
  {
  }

  /** Another page for a block changes nothing elsewhere. */
  lemma OtherPage(m: map<int, seq<Rune>>, b: int, page: seq<Rune>)
    ensures forall a :: a / BLK != b ==> At(m[b := page], a) == At(m, a)
    ensures SameBelow(m, m[b := page], b * BLK)
  {
    forall a | a < b * BLK ensures At(m[b := page], a) == At(m, a) {
      assert a / BLK < b;
    }
  }

  /** The lines that end before a block survive another page for it. */
  lemma EndingStand(m: map<int, seq<Rune>>, lines: map<int, seq<Rune>>, end: int, b: int, page: seq<Rune>)
    requires AllStand(m, lines, end)
    ensures AllStand(m[b := page], Ending(lines, b), end)
    ensures Untouched(lines, b) ==> Ending(lines, b) == lines
  {
    OtherPage(m, b, page);
    var m', few := m[b := page], Ending(lines, b);
    forall h | h in few ensures h >= 0 && h % 2 == 0 && h + |few[h]| < end && Stands(m', h, few[h]) {
      assert h in lines && Stands(m, h, lines[h]);
    }
  }

  /** The block of the end taken for a page without zeros: exactly the lines that end before it are left. */
  lemma BlockReplaced(m: map<int, seq<Rune>>, lines: map<int, seq<Rune>>, end: nat, page: seq<Rune>)
    requires AllStand(m, lines, end) && |page| == BLK
    requires Untouched(lines, end / BLK) || forall i :: 0 <= i < BLK ==> page[i] != 0
    ensures Left(m[end / BLK := page], lines, Ending(lines, end / BLK))
  {
    var b := end / BLK;
    EndingStand(m, lines, end, b, page);
    forall h | h in lines ensures h in Ending(lines, b) <==> Stands(m[b := page], h, lines[h]) {
      var z := h + |lines[h]|;
      if h in Ending(lines, b) {
        assert Stands(m[b := page], h, Ending(lines, b)[h]);
      } else {
        assert z / BLK == b && At(m[b := page], z) == page[z % BLK];
      }
    }
  }

  /** The store with the rune at address a replaced. */
  function Poke(m: map<int, seq<Rune>>, a: nat, c: Rune): map<int, seq<Rune>>
    requires a / BLK in m && |m[a / BLK]| == BLK
  {
    var page: seq<Rune> := m[a / BLK];
    var page': seq<Rune> := page[a % BLK := c];
    m[a / BLK := page']
  }

  lemma OtherRune(m: map<int, seq<Rune>>, a: nat, c: Rune)
    requires a / BLK in m && |m[a / BLK]| == BLK
    ensures At(Poke(m, a, c), a) == c && forall i :: i != a ==> At(Poke(m, a, c), i) == At(m, i)
  {
    forall i | i != a ensures At(Poke(m, a, c), i) == At(m, i) {
      if i / BLK == a / BLK {
        assert i % BLK != a % BLK;
      }
    }
  }

  class TempFile {
    const ibuff: array<Rune>
    const obuff: array<Rune>
    var iblock: int
    var oblock: int
    var ichanged: bool
    var tline: nat
    /** The blocks of the temporary file that have been written. */
    var disk: map<int, seq<Rune>>
    /** The lines stored so far, by handle. */
    ghost var lines: map<int, seq<Rune>>

    /** The buffers hold different blocks, and a clean ibuff is a copy of its block on disk. */
    ghost predicate Shape()
      reads this`disk, this`iblock, this`oblock, this`ichanged, ibuff, obuff
    {
      && ibuff != obuff && ibuff.Length == obuff.Length == BLK
      && -1 <= oblock < NBLK && -1 <= iblock < NBLK && (iblock >= 0 ==> iblock != oblock) && (ichanged ==> iblock >= 0)
      && (forall b :: b in disk ==> 0 <= b < NBLK && |disk[b]| == BLK)
      && (iblock >= 0 && !ichanged ==> iblock in disk && ibuff[..] == disk[iblock])
    }

    /** The temporary file as it would be without buffers. */
    ghost function Store(): map<int, seq<Rune>>
      reads this`disk, this`iblock, this`oblock, this`ichanged, ibuff, obuff
    {
      var m: map<int, seq<Rune>> := if ichanged then disk[iblock := ibuff[..]] else disk;
      if oblock >= 0 then m[oblock := obuff[..]] else m
    }

    ghost predicate Readable()
      reads this, ibuff, obuff
    {
      Shape() && tline % 2 == 0 && iblock <= tline / BLK && AllStand(Store(), lines, tline)
    }

    /** The next line goes into the block in obuff, or into one that no line has reached. */
    ghost predicate Normal()
      reads this
    {
      tline / BLK == oblock || (Untouched(lines, tline / BLK) && iblock < tline / BLK)
    }

    /** obuff is full of the runes of a line that did not fit. */
    ghost predicate Stuffed()
      reads obuff
    {
      forall i :: 0 <= i < obuff.Length ==> obuff[i] != 0
    }

    /** What holds at any time, whatever lines have been put and read, and whether they fitted or not. */
    ghost predicate Usable()
      reads this, ibuff, obuff
    {
      Readable() && (Normal() || Stuffed())
    }

    /** What holds until a line does not fit. */
    ghost predicate Valid()
      reads this, ibuff, obuff
    {
      Readable() && Normal()
    }

    /** When the next line can be put without harm: its block does not exist, is in a buffer, or no line is in it. */
    ghost predicate Safe()
      reads this
    {
      tline / BLK >= NBLK || tline / BLK == iblock || tline / BLK == oblock || Untouched(lines, tline / BLK)
    }

    constructor ()
      ensures Valid() && lines == map[] && tline == 2 && iblock == -1 && fresh(ibuff) && fresh(obuff)
    {
      ibuff := new Rune[BLK];
      obuff := new Rune[BLK];
      iblock, oblock, ichanged := -1, -1, false;
      tline := 2;
      disk, lines := map[], map[];
    }

    /**
     * getblock: the buffer holding block bno, or none when the file would grow too large or the block was never
     * written. When a block is taken up for writing the buffer keeps whatever was in it before.
     */
    method GetBlock(bno: nat, write: bool) returns (buf: array?<Rune>)
      requires ibuff != obuff && ibuff.Length == obuff.Length == BLK
      modifies this`iblock, this`oblock, this`ichanged, this`disk, ibuff
      ensures bno >= NBLK ==> buf == null && unchanged(this) && ibuff[..] == old(ibuff[..])
      ensures bno < NBLK && bno == old(iblock) ==>
                buf == ibuff && unchanged(this`iblock, this`oblock, this`disk) && ibuff[..] == old(ibuff[..]) &&
                ichanged == (old(ichanged) || write)
      ensures bno < NBLK && bno != old(iblock) && bno == old(oblock) ==>
                buf == obuff && unchanged(this) && ibuff[..] == old(ibuff[..])
      ensures bno < NBLK && bno != old(iblock) && bno != old(oblock) && write ==>
                buf == obuff && unchanged(this`iblock, this`ichanged) && oblock == bno && ibuff[..] == old(ibuff[..]) &&
                disk == if old(oblock) >= 0 then old(disk)[old(oblock) := old(obuff[..])] else old(disk)
      ensures bno < NBLK && bno != old(iblock) && bno != old(oblock) && !write ==>
                oblock == old(oblock) && iblock == bno && !ichanged &&
                disk == (if old(ichanged) then old(disk)[old(iblock) := old(ibuff[..])] else old(disk)) &&
                (if iblock in disk && |disk[iblock]| == BLK then buf == ibuff && ibuff[..] == disk[iblock]
                 else buf == null)
    {
      if bno >= NBLK {
        return null;
      }
      if bno == iblock {
        ichanged := ichanged || write;
        return ibuff;
      }
      if bno == oblock {
        return obuff;
      }
      if !write {
        if ichanged {
          disk := disk[iblock := ibuff[..]];
        }
        ichanged := false;
        iblock := bno;
        if bno in disk && |disk[bno]| == BLK {
          forall i | 0 <= i < BLK {
            ibuff[i] := disk[bno][i];
          }
          return ibuff;
        }
        return null;
      }
      if oblock >= 0 {
        disk := disk[oblock := obuff[..]];
      }
      oblock := bno;
      return obuff;
    }

    /** getblock for reading a block of the store. */
    method ReadBlock(bno: nat) returns (buf: array<Rune>)
      requires Shape() && bno in Store() && bno < NBLK
      modifies this`iblock, this`oblock, this`ichanged, this`disk, ibuff
      ensures Shape() && Store() == old(Store()) && oblock == old(oblock) && (iblock == old(iblock) || iblock == bno)
      ensures buf[..] == Store()[bno] && |Store()[bno]| == BLK
    {
      ghost var m := Store();
      var b := GetBlock(bno, false);
      assert Store() == m;
      buf := b;
    }

    /** The loop of getline from address tl, where the line s stands. */
    method ReadFrom(tl: nat, ghost s: seq<Rune>) returns (line: seq<Rune>)
      requires Shape() && Stands(Store(), tl, s) && (tl + |s|) / BLK < NBLK
      modifies this`iblock, this`oblock, this`ichanged, this`disk, ibuff
      ensures Shape() && Store() == old(Store()) && oblock == old(oblock)
      ensures iblock == old(iblock) || tl / BLK <= iblock <= (tl + |s|) / BLK
      ensures line == s
    {
      ghost var m := Store();
      var bno, off := tl / BLK, tl % BLK;
      NextRune(m, bno, off, tl, s, 0);
      var bp := ReadBlock(bno);
      var nl := BLK - off;
      line := [];
      while bp[off] != 0
        invariant Shape() && Store() == m && oblock == old(oblock)
        invariant iblock == old(iblock) || tl / BLK <= iblock <= (tl + |s|) / BLK
        invariant |line| <= |s| && line == s[..|line|] && tl + |line| == bno * BLK + off
        invariant 0 <= off < BLK && nl == BLK - off && bno in m && bp[..] == m[bno] && |m[bno]| == BLK
        invariant m[bno][off] == 0 <==> |line| == |s|
        decreases |s| - |line|
      {
        NextRune(m, bno, off, tl, s, |line|);
        line := line + [bp[off]];
        off := off + 1;
        nl := nl - 1;
        if nl == 0 {
          bno := bno + 1;
          off, nl := 0, BLK;
          NextRune(m, bno, off, tl, s, |line|);
          bp := ReadBlock(bno);
        }
        NextRune(m, bno, off, tl, s, |line|);
      }
    }

    /** A handle is read from blocks up to that of the end of its line, which is never beyond that of tline. */
    lemma EndOfLine(tl: int)
      requires Readable() && tl in lines
      ensures (tl + |lines[tl]|) / BLK <= tline / BLK && (tl + |lines[tl]|) / BLK < NBLK
      ensures Untouched(lines, tline / BLK) ==> (tl + |lines[tl]|) / BLK < tline / BLK
    {
      var z := tl + |lines[tl]|;
      assert Stands(Store(), tl, lines[tl]) && At(Store(), z) == 0;
      assert z / BLK in Store();
    }

    /** getline: a stored line, by its handle. */
    method GetLine(tl: nat) returns (line: seq<Rune>)
      requires Usable() && tl in lines
      modifies this`iblock, this`oblock, this`ichanged, this`disk, ibuff
      ensures Usable() && (old(Valid()) ==> Valid())
      ensures line == lines[tl]
      ensures iblock == old(iblock) || tl / BLK <= iblock <= (tl + |lines[tl]|) / BLK
    {
      EndOfLine(tl);
      line := ReadFrom(tl, lines[tl]);
    }

    /**
     * getline on a handle whose mark bit is set: the mask on the offset clears bits below a whole rune only, so the
     * first rune of the line is lost.
     */
    method GetMarkedLine(tl: nat) returns (line: seq<Rune>)
      requires Usable() && tl in lines && lines[tl] != []
      modifies this`iblock, this`oblock, this`ichanged, this`disk, ibuff
      ensures Usable() && (old(Valid()) ==> Valid())
      ensures line == lines[tl][1..]
      ensures iblock == old(iblock) || tl / BLK <= iblock <= (tl + |lines[tl]|) / BLK
    {
      EndOfLine(tl);
      TailStands(Store(), tl, lines[tl]);
      line := ReadFrom(tl + 1, lines[tl][1..]);
    }

    /** This buffer holds block c, and what is written into it is not forgotten. */
    ghost predicate Current(bp: array<Rune>, c: int)
      reads this`iblock, this`oblock, this`ichanged
    {
      c < NBLK && ((bp == ibuff && iblock == c && ichanged) || (bp == obuff && oblock == c))
    }

    /** getblock for writing: a block in neither buffer is taken for what obuff holds, after that has gone to disk. */
    method WriteBlock(bno: nat) returns (buf: array?<Rune>)
      requires Shape()
      modifies this`iblock, this`oblock, this`ichanged, this`disk, ibuff
      ensures Shape() && iblock == old(iblock) && (buf == null <==> bno >= NBLK) && (buf != null ==> Current(buf, bno))
      ensures buf == null || bno == old(iblock) || bno == old(oblock) ==>
                Store() == old(Store()) && oblock == old(oblock)
      ensures buf != null && bno != old(iblock) && bno != old(oblock) ==> Store() == old(Store())[bno := obuff[..]]
      ensures buf == ibuff <==> bno < NBLK && bno == old(iblock)
      ensures buf == null ==> ichanged == old(ichanged)
    {
      ghost var m := Store();
      buf := GetBlock(bno, true);
      assert buf == null || bno == old(iblock) || bno == old(oblock) ==> Store() == m;
      assert buf != null && bno != old(iblock) && bno != old(oblock) ==> Store() == m[bno := obuff[..]];
    }

    /** A rune written at bp. */
    method StoreRune(bp: array<Rune>, a: nat, c: Rune)
      requires Shape() && Current(bp, a / BLK)
      modifies bp
      ensures Shape() && At(Store(), a) == c
      ensures forall i :: i != a ==> At(Store(), i) == At(old(Store()), i)
    {
      ghost var m := Store();
      assert a / BLK in m && m[a / BLK] == bp[..];
      bp[a % BLK] := c;
      OtherRune(m, a, c);
      assert bp[..] == Poke(m, a, c)[a / BLK];
      assert Store() == Poke(m, a, c);
    }

    /** The first getblock of putline: the lines in the block of tline are lost unless that is safe. */
    method FirstBlock() returns (bp: array?<Rune>)
      requires Usable()
      modifies this`iblock, this`oblock, this`ichanged, this`disk, this`lines, ibuff
      ensures Usable() && iblock == old(iblock) && (bp == null <==> tline / BLK >= NBLK)
      ensures lines == if old(Safe()) then old(lines) else Ending(old(lines), tline / BLK)
      ensures Left(Store(), old(lines), lines)
      ensures bp != null ==> Current(bp, tline / BLK) && (bp == ibuff ==> Stuffed())
      ensures old(Normal()) ==> bp != ibuff && lines == old(lines)
    {
      ghost var m, b, few := Store(), tline / BLK, lines;
      bp := WriteBlock(tline / BLK);
      if bp != null && b != old(iblock) && b != old(oblock) {
        BlockReplaced(m, lines, tline, obuff[..]);
        EndingStand(m, lines, tline, b, obuff[..]);
        few := Ending(lines, b);
      }
      lines := few;
    }

    /** The state while a line is being put: its first n runes stand at tline, with room for the next at bp. */
    ghost predicate Putting(s: seq<Rune>, n: int, bp: array<Rune>)
      reads this, ibuff, obuff
    {
      && Readable() && 0 <= n <= |s| && Current(bp, (tline + n) / BLK) && (bp == ibuff ==> Stuffed())
      && forall a :: tline <= a < tline + n ==> At(Store(), a) == s[a - tline]
    }

    /** The block after the current one is taken up while a line is being put. */
    method NextBlock(ghost s: seq<Rune>, n: nat) returns (bp: array?<Rune>)
      requires Readable() && 0 <= n <= |s| && (tline + n) % BLK == 0 && (tline + n) / BLK > tline / BLK
      requires forall a :: tline <= a < tline + n ==> At(Store(), a) == s[a - tline]
      modifies this`iblock, this`oblock, this`ichanged, this`disk, ibuff
      ensures Readable() && iblock == old(iblock) && SameBelow(old(Store()), Store(), tline)
      ensures bp == null <==> (tline + n) / BLK >= NBLK
      ensures bp != null ==> bp == obuff && Putting(s, n, bp)
      ensures bp == null ==> Store() == old(Store()) && oblock == old(oblock) && ichanged == old(ichanged)
    {
      ghost var m, c := Store(), (tline + n) / BLK;
      bp := WriteBlock((tline + n) / BLK);
      if bp != null {
        OtherPage(m, c, obuff[..]);
        assert SameBelow(m, Store(), c * BLK);
        StandBelow(m, Store(), lines, tline);
      }
    }

    /** A round of the loop of putline, before it comes to the end of the block. */
    method PutInBlock(bp: array<Rune>, ghost s: seq<Rune>, n: nat, c: Rune)
      requires Putting(s, n, bp) && n < |s| && c == s[n] != 0
      modifies bp
      ensures Readable() && Current(bp, (tline + n) / BLK) && SameBelow(old(Store()), Store(), tline)
      ensures (bp == ibuff ==> Stuffed()) && forall a :: tline <= a < tline + n + 1 ==> At(Store(), a) == s[a - tline]
    {
      ghost var m := Store();
      StoreRune(bp, tline + n, c);
      StandBelow(m, Store(), lines, tline);
    }

    /** The last block has been filled by a line that goes on. */
    lemma Overfull(s: seq<Rune>, n: nat, bp: array<Rune>)
      requires Readable() && n <= |s| && (forall i :: 0 <= i < |s| ==> s[i] != 0) && tline + n == NBLK * BLK && n > 0
      requires Current(bp, NBLK - 1) && (bp == ibuff ==> Stuffed())
      requires forall a :: tline <= a < tline + n ==> At(Store(), a) == s[a - tline]
      ensures Usable()
    {
      if bp == obuff && tline / BLK < NBLK - 1 {
        forall i | 0 <= i < BLK ensures obuff[i] != 0 {
          var a := (NBLK - 1) * BLK + i;
          assert a / BLK == NBLK - 1 && a % BLK == i && At(Store(), a) == s[a - tline];
        }
      }
    }

    /** One round of the loop of putline: the rune is stored, and the next block taken up at the end of this one. */
    method PutRune(bp: array<Rune>, ghost s: seq<Rune>, n: nat, nl: nat, c: Rune) returns (bp': array?<Rune>)
      requires Putting(s, n, bp) && n < |s| && c == s[n] && nl == BLK - (tline + n) % BLK
      requires forall i :: 0 <= i < |s| ==> s[i] != 0
      modifies this`iblock, this`oblock, this`ichanged, this`disk, ibuff, obuff
      ensures Readable() && iblock == old(iblock) && SameBelow(old(Store()), Store(), tline)
      ensures bp' == null <==> (tline + n + 1) / BLK >= NBLK
      ensures bp' != null ==> Putting(s, n + 1, bp') && (bp == obuff ==> bp' == obuff)
      ensures bp' == null ==> Usable() && (bp == obuff ==> oblock == NBLK - 1)
    {
      ghost var m := Store();
      PutInBlock(bp, s, n, c);
      ghost var m' := Store();
      bp' := bp;
      if nl == 1 {
        bp' := NextBlock(s, n + 1);
        BelowTwice(m, m', Store(), tline);
        if bp' == null {
          assert (tline + n) / BLK == NBLK - 1 && tline + n + 1 == NBLK * BLK;
          Overfull(s, n + 1, bp);
        }
      }
    }

    /** The loop of putline before its round n; m is the store that putline began with. */
    ghost predicate AtRound(bp: array?<Rune>, text: seq<Rune>, n: nat, nl: int, m: map<int, seq<Rune>>)
      reads this, ibuff, obuff
    {
      bp != null && Putting(Upto(text), n, bp) && nl == BLK - (tline + n) % BLK && SameBelow(m, Store(), tline)
    }

    /** A round of the loop: there is no buffer after it when the line runs over the end of the file. */
    method PutNext(bp: array<Rune>, text: seq<Rune>, n: nat, nl: int, ghost m: map<int, seq<Rune>>)
      returns (bp': array?<Rune>, n': nat, nl': int)
      requires IsLine(text) && n < |text| && text[n] != NEWLINE && AtRound(bp, text, n, nl, m)
      modifies this`iblock, this`oblock, this`ichanged, this`disk, ibuff, obuff
      ensures iblock == old(iblock) && n' == n + 1
      ensures bp' != null ==> AtRound(bp', text, n', nl', m) && (bp == obuff ==> bp' == obuff)
      ensures bp' == null ==> Overrun(text, m) && (bp == obuff ==> oblock == NBLK - 1)
    {
      ghost var s, m' := Upto(text), Store();
      assert n < |s| && s[n] == text[n];
      bp' := PutRune(bp, s, n, nl, text[n]);
      BelowTwice(m, m', Store(), tline);
      n' := n + 1;
      nl' := if nl == 1 then BLK else nl - 1;
      assert (tline + n + 1) / BLK <= (tline + |s|) / BLK;
    }

    /** The line did not fit. */
    ghost predicate Overrun(text: seq<Rune>, m: map<int, seq<Rune>>)
      reads this, ibuff, obuff
    {
      Usable() && (tline + |Upto(text)|) / BLK >= NBLK && SameBelow(m, Store(), tline)
    }

    /** The loop of putline, up to a newline or the closing zero; it breaks off when the temporary file is full. */
    method PutRunes(text: seq<Rune>, bp0: array<Rune>) returns (bp: array?<Rune>, n: nat)
      requires IsLine(text) && Putting(Upto(text), 0, bp0)
      modifies this`iblock, this`oblock, this`ichanged, this`disk, ibuff, obuff
      ensures iblock == old(iblock)
      ensures bp != null ==>
                n == |Upto(text)| && Putting(Upto(text), n, bp) && SameBelow(old(Store()), Store(), tline) &&
                (tline + n) / BLK < NBLK && (bp0 == obuff ==> bp == obuff)
      ensures bp == null ==> Overrun(text, old(Store())) && (bp0 == obuff ==> oblock == NBLK - 1)
    {
      ghost var m := Store();
      n := 0;
      var nl := BLK - tline % BLK;
      bp := bp0;
      while n < |text| && text[n] != NEWLINE
        invariant AtRound(bp, text, n, nl, m) && (bp0 == obuff ==> bp == obuff) && iblock == old(iblock)
      {
        bp, n, nl := PutNext(bp, text, n, nl, m);
        if bp == null {
          return;
        }
      }
    }

    /** The closing zero of a line. */
    method PutZero(bp: array<Rune>, n: nat, ghost s: seq<Rune>)
      requires Putting(s, n, bp) && n == |s|
      modifies bp
      ensures Readable() && Current(bp, (tline + n) / BLK) && SameBelow(old(Store()), Store(), tline)
      ensures (bp == ibuff ==> Stuffed()) && (forall a :: tline <= a < tline + n ==> At(Store(), a) == s[a - tline])
      ensures At(Store(), tline + n) == 0
    {
      ghost var m := Store();
      StoreRune(bp, tline + n, 0);
      StandBelow(m, Store(), lines, tline);
    }

    /** The line enters the store, and tline goes past it. */
    method Admit(n: nat, ghost s: seq<Rune>)
      requires Readable() && n == |s| < LBSIZE && forall i :: 0 <= i < |s| ==> s[i] != 0
      requires (forall a :: tline <= a < tline + n ==> At(Store(), a) == s[a - tline]) && At(Store(), tline + n) == 0
      requires oblock == (tline + n) / BLK || Stuffed()
      modifies this`tline, this`lines
      ensures Usable() && (oblock == (old(tline) + n) / BLK ==> Valid())
      ensures oblock == (old(tline) + n) / BLK || iblock == (old(tline) + n) / BLK ==> Safe()
      ensures tline == old(tline) + Advance(n + 1)
      ensures old(tline) !in old(lines) && lines == old(lines)[old(tline) := s]
    {
      ghost var tl := tline;
      LineAdded(Store(), lines, tl, s, tl + Advance(n + 1));
      lines := lines[tl := s];
      tline := tline + Advance(n + 1);
      NextUntouched(lines, tl, tl + n, tline);
    }

    /** The end of putline: the closing zero, and the line enters the store. */
    method CloseLine(bp: array<Rune>, n: nat, ghost s: seq<Rune>)
      requires Putting(s, n, bp) && n == |s| < LBSIZE && forall i :: 0 <= i < |s| ==> s[i] != 0
      modifies this`tline, this`lines, bp
      ensures Usable() && Safe() && (bp == obuff ==> Valid()) && SameBelow(old(Store()), Store(), old(tline))
      ensures tline == old(tline) + Advance(n + 1)
      ensures old(tline) !in old(lines) && lines == old(lines)[old(tline) := s]
    {
      PutZero(bp, n, s);
      Admit(n, s);
    }

    static lemma NextUntouched(lines: map<int, seq<Rune>>, tl: int, z: int, end: int)
      requires 0 <= tl <= z < end && forall h :: h in lines ==> h + |lines[h]| <= z
      ensures end / BLK > z / BLK ==> Untouched(lines, end / BLK)
    {
    }

    /** putline after its first getblock; of the lines `was` stored before that, exactly those in `left` stand. */
    method PutRest(text: seq<Rune>, bp0: array<Rune>, ghost was: map<int, seq<Rune>>, ghost left: map<int, seq<Rune>>)
      returns (ok: bool, rest: seq<Rune>)
      requires IsLine(text) && Putting(Upto(text), 0, bp0) && Below(was, tline) && Left(Store(), was, left)
      modifies this`iblock, this`oblock, this`ichanged, this`disk, this`tline, this`lines, ibuff, obuff
      ensures Usable() && iblock == old(iblock) && (ok <==> (old(tline) + |Upto(text)|) / BLK < NBLK) && (ok ==> Safe())
      ensures lines == if ok then old(lines)[old(tline) := Upto(text)] else old(lines)
      ensures old(tline) !in old(lines) && Left(Store(), was, left)
      ensures tline == if ok then old(tline) + Advance(|Upto(text)| + 1) else old(tline)
      ensures rest == if ok && |Upto(text)| < |text| then text[|Upto(text)| + 1..] else []
      ensures bp0 == obuff ==> if ok then Valid() else oblock == NBLK - 1
    {
      ghost var m, tl := Store(), tline;
      rest := [];
      var bp, n := PutRunes(text, bp0);
      ok := bp != null;
      LeftKept(m, Store(), was, left, tl);
      if ok {
        ghost var m' := Store();
        CloseLine(bp, n, Upto(text));
        LeftKept(m', Store(), was, left, tl);
        rest := if n < |text| then text[n + 1..] else [];
      }
    }

    /**
     * putline: stores linebuf up to a newline or its closing zero and yields the handle. When there was a newline,
     * what follows it is left in `rest`. There is no result when the line would end beyond the last block. When the
     * put is safe all earlier lines stay as they were; otherwise exactly those that end before its block do.
     */
    method PutLine(text: seq<Rune>) returns (ok: bool, tl: nat, rest: seq<Rune>)
      requires Usable() && IsLine(text)
      modifies this`iblock, this`oblock, this`ichanged, this`disk, this`tline, this`lines, ibuff, obuff
      ensures Usable() && (ok <==> (old(tline) + |Upto(text)|) / BLK < NBLK) && tl == old(tline) && tl !in old(lines)
      ensures iblock == old(iblock) && (ok ==> Safe()) && tline == if ok then tl + Advance(|Upto(text)| + 1) else tl
      ensures var left := if old(Safe()) then old(lines) else Ending(old(lines), tl / BLK);
              Left(Store(), old(lines), left) && lines == if ok then left[tl := Upto(text)] else left
      ensures rest == if ok && |Upto(text)| < |text| then text[|Upto(text)| + 1..] else []
      ensures old(Valid()) ==> old(Safe()) && (Valid() <==> ok || tl / BLK >= NBLK - 1 || Untouched(lines, tl / BLK))
    {
      ghost var was := lines;
      tl, rest := tline, [];
      var bp := FirstBlock();
      ok := bp != null;
      if ok {
        ok, rest := PutRest(text, bp, was, lines);
      }
    }
  }

  lemma {:induction false} NoNewline(text: seq<Rune>)
    requires NEWLINE !in text
    ensures Upto(text) == text
  {
    if text != [] {
      NoNewline(text[1..]);
    }
  }

  /**
   * A stored line is lost: it reaches into the block of tline, which ibuff does not hold; a line that runs over the end
   * of the file is put, from a block before the last, and then one that fits.
   */
  method LineLost(f: TempFile, ghost h: nat, long: seq<Rune>, short: seq<Rune>)
    requires f.Valid() && f.tline / BLK < NBLK - 1 && f.iblock != f.tline / BLK
    requires h in f.lines && h + |f.lines[h]| >= f.tline / BLK * BLK
    requires IsLine(long) && (f.tline + |Upto(long)|) / BLK >= NBLK
    requires IsLine(short) && (f.tline + |Upto(short)|) / BLK < NBLK
    modifies f, f.ibuff, f.obuff
    ensures f.Usable() && !Stands(f.Store(), h, old(f.lines[h]))
  {
    var ok, tl, rest := f.PutLine(long);
    assert !f.Safe();
    ok, tl, rest := f.PutLine(short);
  }

  /** A new file comes to the state in which LineLost begins: lines of one rune are put into it. */
  method BeforeTheLoss() returns (f: TempFile, h: nat, long: seq<Rune>, short: seq<Rune>)
    ensures fresh(f) && fresh(f.ibuff) && fresh(f.obuff)
    ensures f.Valid() && f.iblock == -1 && f.tline / BLK == NBLK - 2
    ensures h in f.lines && h / BLK == NBLK - 2
    ensures IsLine(long) && (f.tline + |Upto(long)|) / BLK >= NBLK
    ensures IsLine(short) && (f.tline + |Upto(short)|) / BLK < NBLK
  {
    f := new TempFile();
    short := [97];
    assert Upto(short) == [97];
    while f.tline < (NBLK - 2) * BLK
      invariant fresh(f) && fresh(f.ibuff) && fresh(f.obuff)
      invariant f.Valid() && f.iblock == -1 && f.tline < (NBLK - 2) * BLK + 4
    {
      var ok, tl, rest := f.PutLine(short);
    }
    var ok, rest;
    ok, h, rest := f.PutLine(short);
    long := seq(LBSIZE - 1, _ => 97);
    NoNewline(long);
  }
}
