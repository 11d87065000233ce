// The growable buffer every dc number lives in, and its cursor operations.

/** Buffers and the cursor macros of dc.c. */
module DcBlock {

  /** What fits in a signed char. */
  predicate IsChar(c: int) {
    -128 <= c < 128
  }

  /**
   * A block: `buf` is the contents between beg and wt, `spare` the allocated bytes between wt and last,
   * `rd` the read/alter cursor as an offset from beg.
   */
  class Blk {
    var buf: seq<int>
    var spare: seq<int>
    var rd: nat

    /** salloc: an empty block over `size` uninitialised bytes. */
    constructor (size: nat)
      ensures buf == [] && rd == 0 && |spare| == size
    {
      buf, rd := [], 0;
      spare := seq(size, _ => 0);
      new;
      var bytes := Garbage(size);
      spare := bytes;
    }

    /** copy: the same contents in a fresh block, the cursor at the beginning. */
    constructor Copy(h: Blk, size: nat)
      requires size >= |h.buf|
      ensures buf == h.buf && rd == 0 && |spare| == size - |h.buf|
    {
      buf, rd := h.buf, 0;
      spare := seq(size - |h.buf|, _ => 0);
    }

    predicate AtEnd()
      reads this
    {
      rd == |buf|
    }

    predicate AtBeg()
      reads this
    {
      rd == 0
    }

    method Rewind()
      modifies this`rd
      ensures rd == 0
    {
      rd := 0;
    }

    method FsFile()
      modifies this`rd
      ensures rd == |buf|
    {
      rd := |buf|;
    }

    /** sgetc: the next digit, or -1 at the end. */
    method GetC() returns (c: int)
      requires rd <= |buf|
      modifies this`rd
      ensures if old(rd) == |buf| then c == -1 && rd == old(rd) else c == buf[old(rd)] && rd == old(rd) + 1
    {
      if rd == |buf| {
        return -1;
      }
      c := buf[rd];
      rd := rd + 1;
    }

    /** slookc: the digit under the cursor, or -1 at the end. */
    function LookC(): int
      requires rd <= |buf|
      reads this
    {
      if rd == |buf| then -1 else buf[rd]
    }

    /** sbackc: steps back and yields the digit, or -1 at the beginning. */
    method BackC() returns (c: int)
      requires rd <= |buf|
      modifies this`rd
      ensures if old(rd) == 0 then c == -1 && rd == 0 else rd == old(rd) - 1 && c == buf[rd]
    {
      if rd == 0 {
        return -1;
      }
      rd := rd - 1;
      c := buf[rd];
    }

    /** backc: steps back without reading. */
    method StepBack()
      modifies this`rd
      ensures rd == if old(rd) == 0 then 0 else old(rd) - 1
    {
      if rd > 0 {
        rd := rd - 1;
      }
    }

    /** skipc: steps over a digit unless at the end. */
    method SkipC()
      modifies this`rd
      ensures rd == if old(rd) < |buf| then old(rd) + 1 else old(rd)
    {
      if rd < |buf| {
        rd := rd + 1;
      }
    }

    /** sputc: appends at the write end, growing the block when it is full. */
    method PutC(c: int)
      requires IsChar(c)
      modifies this`buf, this`spare
      ensures buf == old(buf) + [c]
    {
      More();
      buf, spare := buf + [c], spare[1..];
    }

    /** salterc: overwrites under the cursor, or appends when the cursor is at the write end. */
    method AlterC(c: int)
      requires rd <= |buf| && IsChar(c)
      modifies this
      ensures rd == old(rd) + 1
      ensures old(rd) < |old(buf)| ==> buf == old(buf)[old(rd) := c]
      ensures old(rd) == |old(buf)| ==> buf == old(buf) + [c]
    {
      if rd == |buf| {
        PutC(c);
      } else {
        buf := buf[rd := c];
      }
      rd := rd + 1;
    }

    /** truncate: drops everything from the cursor on. */
    method Truncate()
      requires rd <= |buf|
      modifies this`buf, this`spare
      ensures buf == old(buf)[..rd]
    {
      buf, spare := buf[..rd], buf[rd..] + spare;
    }

    /** wt--: drops the last byte, leaving the cursor alone. */
    method DropLast()
      requires buf != []
      modifies this`buf, this`spare
      ensures buf == old(buf)[..|old(buf)| - 1]
    {
      buf, spare := buf[..|buf| - 1], buf[|buf| - 1..] + spare;
    }

    /** sunputc: removes the last byte and yields it, leaving the cursor there. */
    method UnputC() returns (c: int)
      requires buf != []
      modifies this
      ensures buf == old(buf)[..|old(buf)| - 1] && c == old(buf)[|old(buf)| - 1] && rd == |buf|
    {
      c := buf[|buf| - 1];
      rd := |buf| - 1;
      Truncate();
    }

    /** create: empties the block. */
    method Create()
      modifies this
      ensures buf == [] && rd == 0
    {
      rd := 0;
      Truncate();
    }

    /** zero: clears every allocated byte. */
    method Zero()
      modifies this`buf, this`spare
      ensures |buf| == |old(buf)| && |spare| == |old(spare)|
      ensures forall i :: 0 <= i < |buf| ==> buf[i] == 0
      ensures forall i :: 0 <= i < |spare| ==> spare[i] == 0
    {
      buf := seq(|buf|, _ => 0);
      spare := seq(|spare|, _ => 0);
    }

    /** seekc: moves the cursor to n, taking in whatever bytes lie between when n is past the write end. */
    method SeekC(n: nat)
      modifies this
      ensures rd == n && n <= |buf|
      ensures n <= |old(buf)| ==> buf == old(buf)
      ensures n > |old(buf)| ==> |buf| == n && buf[..|old(buf)|] == old(buf)
      ensures |old(buf)| < n <= |old(buf)| + |old(spare)| ==> buf == old(buf) + old(spare)[..n - |old(buf)|]
    {
      if n > |buf| + |spare| {
        var bytes := Garbage(n - |buf| - |spare|);
        buf, spare := buf + spare + bytes, [];
      } else if n > |buf| {
        buf, spare := buf + spare[..n - |buf|], spare[n - |buf|..];
      }
      rd := n;
    }

    /** more: doubles a full block. */
    method More()
      modifies this`spare
      ensures spare != [] && old(spare) <= spare
    {
      if spare == [] {
        var bytes := Garbage(if buf == [] then 2 else |buf|);
        spare := bytes;
      }
    }
  }

  /** Bytes of unknown content. */
  method Garbage(n: nat) returns (bytes: seq<int>)
    ensures |bytes| == n
  {
    bytes := seq(n, _ => 0);
  }
}
