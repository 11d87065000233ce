// Words of 32 bits as four bytes, the lowest first.

/** What PBIT32 and wrsym write and GBIT32 reads. */
module Le32 {

  const WORD := 0x1_0000_0000

  /** The four bytes of a number, as far as they hold it. */
  function Bytes4(n: nat): (b: seq<int>)
    ensures |b| == 4 && forall i :: 0 <= i < 4 ==> 0 <= b[i] < 256
  {
    [n % 256, n / 256 % 256, n / 256 / 256 % 256, n / 256 / 256 / 256 % 256]
  }

  function Value4(b: seq<int>): int
    requires |b| == 4
  {
    b[0] + 256 * b[1] + 65536 * b[2] + 16777216 * b[3]
  }

  /** What is read back is the number modulo 2^32, so it is the number if and only if that is below 2^32. */
  lemma ReadsBack(n: nat)
    ensures Value4(Bytes4(n)) == n % WORD
    ensures Value4(Bytes4(n)) == n <==> n < WORD
  {
    var q := n / 256;
    var q' := q / 256;
    var q'' := q' / 256;
    var top := q'' / 256;
    assert n == n % 256 + 256 * (q % 256) + 65536 * (q' % 256) + 16777216 * (q'' % 256) + WORD * top;
    assert Value4(Bytes4(n)) == n - WORD * top;
    WordOf(Value4(Bytes4(n)), n, top);
  }

  lemma WordOf(v: int, n: nat, top: nat)
    requires 0 <= v < WORD && n == v + WORD * top
    ensures v == n % WORD && (v == n <==> n < WORD)
  {
  }
}
