// ar's symbol table and the archive that install puts together from the temp files.

/** scanobj, duplicate, getspace, wrsym, rl and install of sys/src/cmd/ar.c. */
module ArInstall {
  import opened ArFile
  import opened Le32

  const SARMAG := 8
  const ARMAG: seq<Byte> := ['!' as int, '<' as int, 'a' as int, 'r' as int, 'c' as int, 'h' as int, '>' as int, 10]

  datatype Option<T> = None | Some(value: T)

  /** What scanobj finds in a file: no object of the kind seen so far, or an object with its symbols. */
  datatype Scan = NoObject | Object(syms: seq<Symbol>)

  /** An entry of the symbol table, its offset counted from the beginning of the archive. */
  datatype Entry = Entry(kind: char, name: seq<Byte>, offset: nat)

  // ----- the bytes of the symbol table --------------------------------------------

  function EntryBytes(e: Entry): seq<Byte> {
    [e.kind as int] + Bytes4(e.offset) + e.name + [0]
  }

  /** The entry that wrsym makes of an element of a chain, with `base` added to its offset. */
  function EntryOf(s: Symref, base: nat): Entry {
    Entry(s.kind, s.name, s.offset + base)
  }

  /** What wrsym writes for a chain. */
  function SymBytes(sym: seq<Symref>, base: nat): seq<Byte> {
    if sym == [] then [] else EntryBytes(EntryOf(sym[0], base)) + SymBytes(sym[1..], base)
  }

  /** What the entries of a chain come to in bytes. */
  function SymSize(sym: seq<Symref>): nat {
    if sym == [] then 0 else 4 + (|sym[0].name| + 1) + 1 + SymSize(sym[1..])
  }

  lemma {:induction false} SymSizeIsLength(sym: seq<Symref>, base: nat)
    ensures |SymBytes(sym, base)| == SymSize(sym)
  {
    if sym != [] {
      SymSizeIsLength(sym[1..], base);
    }
  }

  /** wrsym. */
  method WrSym(out: seq<Byte>, base: nat, sym: seq<Symref>) returns (out': seq<Byte>)
    ensures out' == out + SymBytes(sym, base)
  {
    out' := out;
    for i := 0 to |sym|
      invariant out' + SymBytes(sym[i..], base) == out + SymBytes(sym, base)
    {
      ghost var entry := EntryBytes(EntryOf(sym[i], base));
      WrittenNext(out', sym, base, i);
      var off := sym[i].offset + base;
      out' := out' + ([sym[i].kind as int] + Bytes4(off) + sym[i].name + [0]);
    }
    assert out' + [] == out';
  }

  lemma WrittenNext(out: seq<Byte>, sym: seq<Symref>, base: nat, i: nat)
    requires i < |sym|
    ensures out + SymBytes(sym[i..], base) == out + EntryBytes(EntryOf(sym[i], base)) + SymBytes(sym[i + 1..], base)
  {
    assert sym[i..][1..] == sym[i + 1..];
  }

  /** Every element of a chain has its entry in the bytes. */
  lemma {:induction false} EntryWritten(sym: seq<Symref>, base: nat, i: nat)
    requires i < |sym|
    ensures FoundAt(SymBytes(sym, base), SymSize(sym[..i]), EntryBytes(EntryOf(sym[i], base)))
  {
    var first, rest := EntryBytes(EntryOf(sym[0], base)), SymBytes(sym[1..], base);
    if i == 0 {
      Between([], first, rest);
      assert [] + first + rest == first + rest;
    } else {
      EntryWritten(sym[1..], base, i - 1);
      Between(first, rest, []);
      assert first + rest + [] == first + rest;
      FoundWithin(first + rest, |first|, rest, SymSize(sym[1..][..i - 1]), EntryBytes(EntryOf(sym[i], base)));
      assert sym[..i][1..] == sym[1..][..i - 1];
    }
  }

  // ----- the header of the symbol table ----------------------------------------------

  function Decimal(n: nat): seq<Byte> {
    if n < 10 then [48 + n] else Decimal(n / 10) + [48 + n % 10]
  }

  function Number(s: seq<Byte>): int {
    if s == [] then 0 else 10 * Number(s[..|s| - 1]) + (s[|s| - 1] - 48)
  }

  lemma {:induction false} DecimalReadsBack(n: nat)
    ensures Number(Decimal(n)) == n && 0 < |Decimal(n)| && (n < 10 || |Decimal(n)| == |Decimal(n / 10)| + 1)
  {
    if n >= 10 {
      DecimalReadsBack(n / 10);
    } else {
      assert [48 + n][..0] == [];
    }
  }

  function Blanks(n: nat): (b: seq<Byte>)
    ensures |b| == n
  {
    if n == 0 then [] else Blanks(n - 1) + [32]
  }

  function Power10(k: nat): nat {
    if k == 0 then 1 else 10 * Power10(k - 1)
  }

  lemma {:induction false} DecimalFits(n: nat, k: nat)
    requires n < Power10(k) && k > 0
    ensures |Decimal(n)| <= k
  {
    if n >= 10 {
      DecimalFits(n / 10, k - 1);
    }
  }

  /** A field of a header, blank padded on the right. */
  function Field(s: seq<Byte>, n: nat): (f: seq<Byte>)
    requires |s| <= n
    ensures |f| == n && f[..|s|] == s
  {
    s + Blanks(n - |s|)
  }

  const SYMDEF: seq<Byte> := ['_' as int, '_' as int, '.' as int, 'S' as int, 'Y' as int, 'M' as int, 'D' as int,
                              'E' as int, 'F' as int]

  /** The size of a symbol table fits its field of a header. */
  predicate SizeFits(len: nat) {
    len < Power10(10)
  }

  /** The header of the symbol table; the date is up to twelve characters. */
  function SymHeader(date: seq<Byte>, len: nat): (h: seq<Byte>)
    requires |date| <= 12 && SizeFits(len)
    ensures |h| == SAR_HDR
  {
    DecimalFits(len, 10);
    Field(SYMDEF, 16) + Field(date, 12) + Field([48], 6) + Field([48], 6) + Field([54, 52, 52], 8) +
    Field(Decimal(len), 10) + [96, 10]
  }

  /** The size is read back from the header as it was written. */
  lemma HeaderSize(date: seq<Byte>, len: nat)
    requires |date| <= 12 && SizeFits(len)
    ensures |Decimal(len)| <= 10 && SymHeader(date, len)[48..48 + |Decimal(len)|] == Decimal(len)
    ensures Number(Decimal(len)) == len
  {
    DecimalFits(len, 10);
    DecimalReadsBack(len);
    var before := Field(SYMDEF, 16) + Field(date, 12) + Field([48], 6) + Field([48], 6) + Field([54, 52, 52], 8);
    var f := Field(Decimal(len), 10);
    assert SymHeader(date, len) == before + f + [96, 10];
    assert (before + f + [96, 10])[48..48 + |Decimal(len)|] == f[..|Decimal(len)|];
  }
}
