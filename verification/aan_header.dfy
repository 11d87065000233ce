// A connection that breaks within a header: what fromnet makes of the part that arrived.

/** The header reading of fromnet in sys/src/cmd/aan.c, which accepts any positive number of bytes. */
module AanHeader {
  import opened AanModel
  import opened AanSafety
  import opened AanWords
  import opened Le32

  const HDRSZ := 12

  /** The fields nb, msg and acked. */
  datatype Header = Header(nb: nat, msg: nat, acked: nat)

  function HeaderOf(f: Frame): Header {
    match f
    case Timer(acked) => Header(0, WORD - 1, Word(acked))
    case Data(num, acked, body) => Header(|body|, Word(num), Word(acked))
  }

  function Spelt(h: Header): (s: seq<int>)
    ensures |s| == HDRSZ
  {
    Bytes4(h.nb) + Bytes4(h.msg) + Bytes4(h.acked)
  }

  /** What is in the buffer after k bytes of a header have been read over the header before it. */
  function Torn(stale: Header, h: Header, k: nat): (s: seq<int>)
    requires k <= HDRSZ
    ensures |s| == HDRSZ
  {
    Spelt(h)[..k] + Spelt(stale)[k..]
  }

  datatype Verdict = Skip | Stop | Body

  /** fromnet on a header: skip a timer message, stop, or go on to read the body. */
  function Judge(s: seq<int>): Verdict
    requires |s| == HDRSZ
  {
    var n, m := Value4(s[0..4]), Value4(s[4..8]);
    if n == 0 then if m == WORD - 1 then Skip else Stop
    else if n > BUFSIZE then Stop
    else Body
  }

  /** A frame whose header is told from that of a timer message, and that ends the stream. */
  predicate EndsStream(f: Frame) {
    f.Data? && f.body == [] && Word(f.num) != WORD - 1
  }

  predicate Fair(f: Frame) {
    f.Data? ==> |f.body| <= BUFSIZE
  }

  /** On a whole header fromnet stops exactly for a frame that ends the stream. */
  lemma WholeHeader(f: Frame)
    requires Fair(f)
    ensures Judge(Spelt(HeaderOf(f))).Stop? <==> EndsStream(f)
  {
    var h := HeaderOf(f);
    ReadsBack(h.nb);
    ReadsBack(h.msg);
    var s := Spelt(h);
    assert s[0..4] == Bytes4(h.nb) && s[4..8] == Bytes4(h.msg);
  }

  // ----- words of which some bytes have been replaced --------------------------------------

  /** 256 to the power j. */
  function Power256(j: nat): nat
    requires j <= 4
  {
    if j == 0 then 1 else if j == 1 then 256 else if j == 2 then 65536 else if j == 3 then 16777216 else WORD
  }

  /** x in the low j bytes and y in the others. */
  function Mixed(x: nat, y: nat, j: nat): int
    requires j <= 4
  {
    x % Power256(j) + (y - y % Power256(j))
  }

  lemma MixedBytes(x: nat, y: nat, j: nat)
    requires x < WORD && y < WORD && j <= 4
    ensures Value4(Bytes4(x)[..j] + Bytes4(y)[j..]) == Mixed(x, y, j)
  {
    LowBytes(x, j);
    LowBytes(y, j);
    ReadsBack(y);
    SplitValue(Bytes4(x), Bytes4(y), j);
  }

  /** The value of the low j bytes. */
  function Low(b: seq<int>, j: nat): int
    requires |b| == 4 && j <= 4
  {
    (if j > 0 then b[0] else 0) + (if j > 1 then 256 * b[1] else 0) + (if j > 2 then 65536 * b[2] else 0) +
    (if j > 3 then 16777216 * b[3] else 0)
  }

  lemma SplitValue(x: seq<int>, y: seq<int>, j: nat)
    requires |x| == |y| == 4 && j <= 4
    ensures Value4(x[..j] + y[j..]) == Low(x, j) + (Value4(y) - Low(y, j))
  {
    var b := x[..j] + y[j..];
    assert forall i :: 0 <= i < 4 ==> b[i] == if i < j then x[i] else y[i];
  }

  lemma LowBytes(n: nat, j: nat)
    requires n < WORD && j <= 4
    ensures Low(Bytes4(n), j) == n % Power256(j)
  {
    ReadsBack(n);
    var b := Bytes4(n);
    if j == 1 {
      Remainder(n, b[0], 256, b[1] + 256 * b[2] + 65536 * b[3]);
    } else if j == 2 {
      Remainder(n, b[0] + 256 * b[1], 65536, b[2] + 256 * b[3]);
    } else if j == 3 {
      Remainder(n, b[0] + 256 * b[1] + 65536 * b[2], 16777216, b[3]);
    }
  }

  lemma Remainder(n: nat, low: nat, p: nat, high: nat)
    requires (p == 256 || p == 65536 || p == 16777216) && low < p && n == low + p * high
    ensures n % p == low
  {
  }

  // ----- the verdict on a torn header --------------------------------------------------------

  /** The number of bytes and the message number that fromnet sees. */
  function SeenLength(stale: Header, h: Header, k: nat): int {
    if k >= 4 then h.nb else Mixed(h.nb, stale.nb, k)
  }

  function SeenNumber(stale: Header, h: Header, k: nat): int {
    if k >= 8 then h.msg else if k >= 4 then Mixed(h.msg, stale.msg, k - 4) else stale.msg
  }

  predicate Words(h: Header) {
    h.nb < WORD && h.msg < WORD && h.acked < WORD
  }

  /** The first two words of a torn header. */
  lemma TornWords(stale: Header, h: Header, k: nat)
    requires k <= HDRSZ
    ensures var t := Torn(stale, h, k);
            && t[0..4] == (if k >= 4 then Bytes4(h.nb) else Bytes4(h.nb)[..k] + Bytes4(stale.nb)[k..])
            && t[4..8] == if k >= 8 then Bytes4(h.msg) else if k < 4 then Bytes4(stale.msg)
                          else Bytes4(h.msg)[..k - 4] + Bytes4(stale.msg)[k - 4..]
  {
    var t := Torn(stale, h, k);
    assert forall i :: 0 <= i < HDRSZ ==> t[i] == if i < k then Spelt(h)[i] else Spelt(stale)[i];
    assert forall i :: 0 <= i < 4 ==> Spelt(h)[i] == Bytes4(h.nb)[i] && Spelt(h)[4 + i] == Bytes4(h.msg)[i];
    assert forall i :: 0 <= i < 4 ==>
                         Spelt(stale)[i] == Bytes4(stale.nb)[i] && Spelt(stale)[4 + i] == Bytes4(stale.msg)[i];
    var u, v := t[0..4], t[4..8];
    assert forall i :: 0 <= i < 4 ==> u[i] == t[i];
    assert forall i :: 0 <= i < 4 ==> v[i] == t[4 + i];
  }

  lemma FirstField(stale: Header, h: Header, k: nat)
    requires Words(stale) && Words(h) && k <= HDRSZ
    ensures Value4(Torn(stale, h, k)[0..4]) == SeenLength(stale, h, k)
  {
    TornWords(stale, h, k);
    if k >= 4 {
      ReadsBack(h.nb);
    } else {
      MixedBytes(h.nb, stale.nb, k);
    }
  }

  lemma SecondField(stale: Header, h: Header, k: nat)
    requires Words(stale) && Words(h) && k <= HDRSZ
    ensures Value4(Torn(stale, h, k)[4..8]) == SeenNumber(stale, h, k)
  {
    TornWords(stale, h, k);
    if k >= 8 {
      ReadsBack(h.msg);
    } else if k >= 4 {
      MixedBytes(h.msg, stale.msg, k - 4);
    } else {
      ReadsBack(stale.msg);
    }
  }

  /** fromnet stops on a header that broke off after k bytes. */
  predicate StopsTorn(stale: Header, f: Frame, k: nat)
    requires k <= HDRSZ
  {
    Judge(Torn(stale, HeaderOf(f), k)).Stop?
  }

  /**
   * When such a stop is false: the frame does not end the stream, and either the length pieced together from two
   * headers is too large, or it is zero and the number is not that of a timer message. After eight bytes that cannot
   * be; from four on it takes a frame without a body, over a header whose number has not all ones where it still
   * shows.
   */
  predicate StopsFalsely(stale: Header, h: Header, k: nat) {
    if k >= 8 then false
    else if k >= 4 then h.nb == 0 && h.msg == WORD - 1 && Mixed(WORD - 1, stale.msg, k - 4) != WORD - 1
    else
      var n := Mixed(h.nb, stale.nb, k);
      n > BUFSIZE || (n == 0 && stale.msg != WORD - 1)
  }

  /** fromnet stops on a torn header although the frame does not end the stream exactly in those cases. */
  lemma TornStops(stale: Header, f: Frame, k: nat)
    requires Words(stale) && Fair(f) && 0 < k <= HDRSZ
    ensures StopsTorn(stale, f, k) && !EndsStream(f) <==> !EndsStream(f) && StopsFalsely(stale, HeaderOf(f), k)
  {
    FirstField(stale, HeaderOf(f), k);
    SecondField(stale, HeaderOf(f), k);
  }

  /** A timer message that breaks off after four bytes, following a message of five bytes, ends the stream. */
  lemma TornTimerStops()
    ensures StopsTorn(HeaderOf(Data(7, 0, [1, 2, 3, 4, 5])), Timer(0), 4) && !EndsStream(Timer(0))
  {
    var stale := HeaderOf(Data(7, 0, [1, 2, 3, 4, 5]));
    FirstField(stale, HeaderOf(Timer(0)), 4);
    SecondField(stale, HeaderOf(Timer(0)), 4);
  }
}
