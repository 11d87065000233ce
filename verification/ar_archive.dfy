// What an archive written by ar is: the members one after the other, behind a symbol table that points at them.

/** The result of install in sys/src/cmd/ar.c, in terms of the members that went into the temp files. */
module ArArchive {
  import opened ArFile
  import opened ArInstall
  import opened ArCommand
  import opened Le32

  type Name = seq<Byte>

  /** A member with its name and date, what scanobj finds in it, and how often memory runs out while it is read. */
  datatype Input = Input(name: Name, date: int, member: Member, scan: Scan, before: nat, between: nat)

  function MembersOf(inputs: seq<Input>): (ms: seq<Member>)
    ensures |ms| == |inputs| && forall k :: 0 <= k < |ms| ==> ms[k] == inputs[k].member
  {
    seq(|inputs|, k requires 0 <= k < |inputs| => inputs[k].member)
  }

  lemma MembersOfSum(a: seq<Input>, b: seq<Input>)
    ensures MembersOf(a + b) == MembersOf(a) + MembersOf(b)
  {
  }

  /** Where member k begins in an archive whose members begin at `base`. */
  function Offset(base: nat, inputs: seq<Input>, k: nat): nat
    requires k <= |inputs|
  {
    base + Start(MembersOf(inputs), k)
  }

  function SymbolOf(e: Entry): Symbol {
    Symbol(e.kind, e.name)
  }

  predicate Defines(m: Input, s: Symbol) {
    m.scan.Object? && s in m.scan.syms && Counts(s)
  }

  /** An entry points at a member that defines its symbol. */
  ghost predicate Home(e: Entry, base: nat, inputs: seq<Input>) {
    exists k :: 0 <= k < |inputs| && Defines(inputs[k], SymbolOf(e)) && e.offset == Offset(base, inputs, k)
  }

  /** A symbol that counts has an entry which points at member k. */
  predicate HasEntry(es: seq<Entry>, base: nat, inputs: seq<Input>, k: nat, s: Symbol)
    requires k < |inputs|
  {
    Entry(s.kind, s.name, Offset(base, inputs, k)) in es
  }

  /** The entries are those of the text and data symbols of the members. */
  ghost predicate IsTable(es: seq<Entry>, base: nat, inputs: seq<Input>) {
    && (forall i {:trigger Home(es[i], base, inputs)} ::
          0 <= i < |es| ==> Home(es[i], base, inputs))
    && forall k, s {:trigger HasEntry(es, base, inputs, k, s)} ::
         0 <= k < |inputs| && Defines(inputs[k], s) ==> HasEntry(es, base, inputs, k, s)
  }

  lemma OffsetInFirst(base: nat, a: seq<Input>, b: seq<Input>, k: nat)
    requires k < |a|
    ensures Offset(base, a + b, k) == Offset(base, a, k)
  {
    assert MembersOf(a + b)[..k] == MembersOf(a)[..k];
  }

  lemma OffsetInSecond(base: nat, a: seq<Input>, b: seq<Input>, k: nat)
    requires k < |b|
    ensures Offset(base, a + b, |a| + k) == Offset(base + |Images(MembersOf(a))|, b, k)
  {
    assert MembersOf(a + b)[..|a| + k] == MembersOf(a) + MembersOf(b)[..k];
    ImagesConcat(MembersOf(a), MembersOf(b)[..k]);
  }

  lemma HomeInFirst(e: Entry, base: nat, a: seq<Input>, b: seq<Input>)
    requires Home(e, base, a)
    ensures Home(e, base, a + b)
  {
    var k :| 0 <= k < |a| && Defines(a[k], SymbolOf(e)) && e.offset == Offset(base, a, k);
    OffsetInFirst(base, a, b, k);
    assert (a + b)[k] == a[k];
  }

  lemma HomeInSecond(e: Entry, base: nat, a: seq<Input>, b: seq<Input>)
    requires Home(e, base + |Images(MembersOf(a))|, b)
    ensures Home(e, base, a + b)
  {
    var k :| 0 <= k < |b| && Defines(b[k], SymbolOf(e)) && e.offset == Offset(base + |Images(MembersOf(a))|, b, k);
    OffsetInSecond(base, a, b, k);
    assert (a + b)[|a| + k] == b[k];
  }

  /** The table of one run of members followed by that of another is the table of both runs together. */
  lemma TableOfSum(es: seq<Entry>, fs: seq<Entry>, base: nat, a: seq<Input>, b: seq<Input>)
    requires IsTable(es, base, a) && IsTable(fs, base + |Images(MembersOf(a))|, b)
    ensures IsTable(es + fs, base, a + b)
  {
    forall i | 0 <= i < |es + fs| ensures Home((es + fs)[i], base, a + b) {
      if i < |es| {
        HomeInFirst(es[i], base, a, b);
      } else {
        HomeInSecond(fs[i - |es|], base, a, b);
      }
    }
    forall k, s | 0 <= k < |a + b| && Defines((a + b)[k], s) ensures HasEntry(es + fs, base, a + b, k, s) {
      if k < |a| {
        OffsetInFirst(base, a, b, k);
        assert HasEntry(es, base, a, k, s);
      } else {
        OffsetInSecond(base, a, b, k - |a|);
        assert HasEntry(fs, base + |Images(MembersOf(a))|, b, k - |a|, s);
      }
    }
  }

  // ----- the chains of symbols -----------------------------------------------------------------

  /** The entries that wrsym writes for a chain. */
  function EntriesOf(sym: seq<Symref>, base: nat): (es: seq<Entry>)
    ensures |es| == |sym| && forall i :: 0 <= i < |es| ==> es[i] == EntryOf(sym[i], base)
  {
    if sym == [] then [] else [EntryOf(sym[0], base)] + EntriesOf(sym[1..], base)
  }

  function EntriesBytes(es: seq<Entry>): seq<Byte> {
    if es == [] then [] else EntryBytes(es[0]) + EntriesBytes(es[1..])
  }

  lemma {:induction false} ChainBytes(sym: seq<Symref>, base: nat)
    ensures EntriesBytes(EntriesOf(sym, base)) == SymBytes(sym, base)
  {
    if sym != [] {
      ChainBytes(sym[1..], base);
    }
  }

  lemma {:induction false} EntriesConcat(es: seq<Entry>, fs: seq<Entry>)
    ensures EntriesBytes(es + fs) == EntriesBytes(es) + EntriesBytes(fs)
  {
    if es == [] {
      assert es + fs == fs;
    } else {
      assert (es + fs)[1..] == es[1..] + fs;
      EntriesConcat(es[1..], fs);
    }
  }

  /** These are the contents and the symbols of some members. */
  ghost predicate AreOf(all: seq<Member>, defs: seq<seq<Symbol>>, inputs: seq<Input>, known: bool) {
    && all == MembersOf(inputs)
    && (known ==> |defs| == |inputs| &&
                  forall k :: 0 <= k < |inputs| ==> inputs[k].scan.Object? && defs[k] == inputs[k].scan.syms)
  }

  /** A temp file holds these members, and knows their symbols. */
  ghost predicate FileHolds(ap: Arfile, inputs: seq<Input>, known: bool)
    reads ap`all, ap`defs
  {
    AreOf(ap.all, ap.defs, inputs, known)
  }

  /** A chain without gaps is the table of its file. */
  lemma ChainIsTable(ap: Arfile, inputs: seq<Input>, base: nat)
    requires ap.Valid() && Archiver.Complete(ap) && FileHolds(ap, inputs, true)
    ensures IsTable(EntriesOf(ap.sym, base), base, inputs)
  {
    var es := EntriesOf(ap.sym, base);
    forall i | 0 <= i < |es| ensures Home(es[i], base, inputs) {
      assert Points(ap.sym, ap.owners, ap.all, ap.defs, i);
      var k := ap.owners[i];
      assert Defines(inputs[k], SymbolOf(es[i])) && es[i].offset == Offset(base, inputs, k);
    }
    forall k, s | 0 <= k < |inputs| && Defines(inputs[k], s) ensures HasEntry(es, base, inputs, k, s) {
      assert Listed(ap.sym, ap.owners, k, s);
      var i :| 0 <= i < |ap.sym| && ap.owners[i] == k && ap.sym[i].kind == s.kind && ap.sym[i].name == s.name;
      assert Points(ap.sym, ap.owners, ap.all, ap.defs, i);
      assert es[i] == Entry(s.kind, s.name, Offset(base, inputs, k));
    }
  }

  // ----- the archive ---------------------------------------------------------------------------

  /** The archive with this symbol table in front: its header gives the size, which counts the padding. */
  function WithTable(date: seq<Byte>, es: seq<Entry>, inputs: seq<Input>): seq<Byte>
    requires |date| <= 12 && SizeFits(Padded(|EntriesBytes(es)|))
  {
    var n := |EntriesBytes(es)|;
    ARMAG + SymHeader(date, Padded(n)) + (EntriesBytes(es) + Pad(n)) + Images(MembersOf(inputs))
  }

  /** An archive of these members: of objects it begins with their symbol table. */
  ghost predicate IsArchive(archive: seq<Byte>, date: seq<Byte>, inputs: seq<Input>, objects: bool)
    requires |date| <= 12
  {
    if objects then exists es :: TableOf(archive, date, es, inputs) else archive == ARMAG + Images(MembersOf(inputs))
  }

  ghost predicate TableOf(archive: seq<Byte>, date: seq<Byte>, es: seq<Entry>, inputs: seq<Input>)
    requires |date| <= 12
  {
    && SizeFits(Padded(|EntriesBytes(es)|)) && archive == WithTable(date, es, inputs)
    && IsTable(es, Base(|EntriesBytes(es)|), inputs)
  }

  /** Where entry i of the table stands in the archive. */
  function EntryAt(es: seq<Entry>, i: nat): nat
    requires i <= |es|
  {
    SARMAG + SAR_HDR + |EntriesBytes(es[..i])|
  }

  lemma EntryStands(es: seq<Entry>, i: nat)
    requires i < |es|
    ensures FoundAt(EntriesBytes(es), |EntriesBytes(es[..i])|, EntryBytes(es[i]))
  {
    var x, y := es[..i], es[i..];
    assert es == x + y && y[1..] == es[i + 1..];
    EntriesConcat(x, y);
    Between(EntriesBytes(x), EntryBytes(es[i]), EntriesBytes(y[1..]));
    assert EntriesBytes(x) + EntryBytes(es[i]) + EntriesBytes(y[1..]) == EntriesBytes(x) + EntriesBytes(y);
  }

  lemma TableInArchive(date: seq<Byte>, es: seq<Entry>, inputs: seq<Input>)
    requires |date| <= 12 && SizeFits(Padded(|EntriesBytes(es)|))
    ensures FoundAt(WithTable(date, es, inputs), SARMAG + SAR_HDR, EntriesBytes(es))
  {
    var n := |EntriesBytes(es)|;
    var head, rest := ARMAG + SymHeader(date, Padded(n)), Pad(n) + Images(MembersOf(inputs));
    Between(head, EntriesBytes(es), rest);
    assert head + EntriesBytes(es) + rest == WithTable(date, es, inputs);
  }

  /** The four bytes of the offset in an entry that stands at p. */
  lemma OffsetBytes(archive: seq<Byte>, table: seq<Byte>, off: nat, p: nat, e: Entry)
    requires FoundAt(archive, SARMAG + SAR_HDR, table) && FoundAt(table, off, EntryBytes(e))
    requires p == SARMAG + SAR_HDR + off
    ensures FoundAt(archive, p, EntryBytes(e))
    ensures p + 5 <= |archive| && archive[p + 1..p + 5] == Bytes4(e.offset)
  {
    FoundWithin(archive, SARMAG + SAR_HDR, table, off, EntryBytes(e));
    FoundThere(archive, p, EntryBytes(e));
    var b := EntryBytes(e);
    assert b[1..5] == Bytes4(e.offset);
    assert archive[p..p + |b|][1..5] == archive[p + 1..p + 5];
  }

  /**
   * At the offset of an entry the member stands that defines its symbol; and the four bytes that the archive has for
   * the offset lead there if and only if it is below 2^32.
   */
  lemma OffsetsFindMembers(archive: seq<Byte>, date: seq<Byte>, es: seq<Entry>, inputs: seq<Input>, i: nat)
    requires |date| <= 12 && TableOf(archive, date, es, inputs) && i < |es|
    ensures exists k :: 0 <= k < |inputs| && Defines(inputs[k], SymbolOf(es[i])) &&
                        FoundAt(archive, es[i].offset, Image(inputs[k].member))
    ensures var p := EntryAt(es, i);
            && p + 5 <= |archive| && FoundAt(archive, p, EntryBytes(es[i]))
            && (Value4(archive[p + 1..p + 5]) == es[i].offset <==> es[i].offset < WORD)
  {
    var n := |EntriesBytes(es)|;
    assert Home(es[i], Base(n), inputs);
    var k :| 0 <= k < |inputs| && Defines(inputs[k], SymbolOf(es[i])) && es[i].offset == Offset(Base(n), inputs, k);
    MembersAtBase(date, es, inputs);
    MemberFound(archive, Base(n), MembersOf(inputs), k);
    TableInArchive(date, es, inputs);
    EntryStands(es, i);
    OffsetBytes(archive, EntriesBytes(es), |EntriesBytes(es[..i])|, EntryAt(es, i), es[i]);
    ReadsBack(es[i].offset);
  }

  lemma MembersAtBase(date: seq<Byte>, es: seq<Entry>, inputs: seq<Input>)
    requires |date| <= 12 && SizeFits(Padded(|EntriesBytes(es)|))
    ensures FoundAt(WithTable(date, es, inputs), Base(|EntriesBytes(es)|), Images(MembersOf(inputs)))
  {
    var n := |EntriesBytes(es)|;
    var head := ARMAG + SymHeader(date, Padded(n)) + (EntriesBytes(es) + Pad(n));
    Between(head, Images(MembersOf(inputs)), []);
    assert head + Images(MembersOf(inputs)) + [] == WithTable(date, es, inputs);
  }

  /** The temp files hold these members. */
  ghost predicate AllHold(a: Archiver, x: seq<Input>, y: seq<Input>, z: seq<Input>)
    reads a, a.astart, a.amiddle, a.aend
  {
    FileHolds(a.astart, x, a.allobj) && FileHolds(a.amiddle, y, a.allobj) && FileHolds(a.aend, z, a.allobj)
  }

  /** A chain gives the table of these members, wherever they begin. */
  ghost predicate ChainFits(sym: seq<Symref>, size: nat, inputs: seq<Input>) {
    size == |Images(MembersOf(inputs))| && forall base: nat :: FitsAt(sym, base, inputs)
  }

  ghost predicate FitsAt(sym: seq<Symref>, base: nat, inputs: seq<Input>) {
    IsTable(EntriesOf(sym, base), base, inputs)
  }

  lemma FitsThere(sym: seq<Symref>, size: nat, base: nat, inputs: seq<Input>) returns (es: seq<Entry>)
    requires ChainFits(sym, size, inputs)
    ensures IsTable(es, base, inputs) && EntriesBytes(es) == SymBytes(sym, base)
  {
    es := EntriesOf(sym, base);
    assert FitsAt(sym, base, inputs);
    ChainBytes(sym, base);
  }

  /** So does the chain of every file of an archive without duplicates. */
  lemma FileFits(a: Archiver, ap: Arfile, inputs: seq<Input>)
    requires a.Valid() && !a.dupfound && ap in {a.astart, a.amiddle, a.aend} && FileHolds(ap, inputs, true)
    ensures ChainFits(ap.sym, ap.size, inputs)
  {
    forall base: nat ensures FitsAt(ap.sym, base, inputs) {
      ChainIsTable(ap, inputs, base);
    }
  }

  lemma TwoTables(es: seq<Entry>, fs: seq<Entry>, base: nat, x: seq<Input>, y: seq<Input>) returns (gs: seq<Entry>)
    requires IsTable(es, base, x) && IsTable(fs, base + |Images(MembersOf(x))|, y)
    ensures IsTable(gs, base, x + y) && EntriesBytes(gs) == EntriesBytes(es) + EntriesBytes(fs)
  {
    gs := es + fs;
    TableOfSum(es, fs, base, x, y);
    EntriesConcat(es, fs);
  }

  lemma ThreeTables(es: seq<Entry>, fs: seq<Entry>, gs: seq<Entry>, base: nat, p: nat, q: nat,
                    x: seq<Input>, y: seq<Input>, z: seq<Input>) returns (hs: seq<Entry>)
    requires p == |Images(MembersOf(x))| && q == |Images(MembersOf(y))|
    requires IsTable(es, base, x) && IsTable(fs, base + p, y) && IsTable(gs, base + p + q, z)
    ensures IsTable(hs, base, x + y + z)
    ensures EntriesBytes(hs) == EntriesBytes(es) + EntriesBytes(fs) + EntriesBytes(gs)
  {
    var two := TwoTables(es, fs, base, x, y);
    LengthOfTwo(x, y);
    hs := TwoTables(two, gs, base, x + y, z);
  }

  lemma LengthOfTwo(x: seq<Input>, y: seq<Input>)
    ensures |Images(MembersOf(x + y))| == |Images(MembersOf(x))| + |Images(MembersOf(y))|
  {
    MembersOfSum(x, y);
    ImagesConcat(MembersOf(x), MembersOf(y));
  }

  /** The entries of three chains are the table of all their members. */
  lemma ChainsTable(s: seq<Symref>, t: seq<Symref>, u: seq<Symref>, base: nat, p: nat, q: nat, r: nat,
                    x: seq<Input>, y: seq<Input>, z: seq<Input>) returns (es: seq<Entry>)
    requires ChainFits(s, p, x) && ChainFits(t, q, y) && ChainFits(u, r, z)
    ensures IsTable(es, base, x + y + z)
    ensures EntriesBytes(es) == SymBytes(s, base) + SymBytes(t, base + p) + SymBytes(u, base + p + q)
  {
    var fs := FitsThere(s, p, base, x);
    var gs := FitsThere(t, q, base + p, y);
    var hs := FitsThere(u, r, base + p + q, z);
    es := ThreeTables(fs, gs, hs, base, p, q, x, y, z);
  }

  lemma ImagesOfThree(x: seq<Input>, y: seq<Input>, z: seq<Input>)
    ensures Images(MembersOf(x + y + z)) == Images(MembersOf(x)) + Images(MembersOf(y)) + Images(MembersOf(z))
  {
    MembersOfSum(x, y);
    MembersOfSum(x + y, z);
    ImagesConcat(MembersOf(x), MembersOf(y));
    ImagesConcat(MembersOf(x + y), MembersOf(z));
  }

  lemma Regrouped(head: seq<Byte>, s: seq<Byte>, t: seq<Byte>, u: seq<Byte>, pad: seq<Byte>,
                  x: seq<Byte>, y: seq<Byte>, z: seq<Byte>)
    ensures (head + s + t + u + pad) + x + y + z == head + ((s + t + u) + pad) + (x + y + z)
  {
  }

  lemma LaidWithTable(date: seq<Byte>, n: nat, s: seq<Byte>, t: seq<Byte>, u: seq<Byte>, es: seq<Entry>,
                      x: seq<Input>, y: seq<Input>, z: seq<Input>)
    requires |date| <= 12 && SizeFits(Padded(n)) && EntriesBytes(es) == s + t + u && |EntriesBytes(es)| == n
    ensures ARMAG + SymHeader(date, Padded(n)) + s + t + u + Pad(n) + Images(MembersOf(x)) + Images(MembersOf(y)) +
            Images(MembersOf(z)) == WithTable(date, es, x + y + z)
  {
    ImagesOfThree(x, y, z);
    Regrouped(ARMAG + SymHeader(date, Padded(n)), s, t, u, Pad(n),
              Images(MembersOf(x)), Images(MembersOf(y)), Images(MembersOf(z)));
  }

  /** The bytes of the three chains, and how many they are. */
  ghost predicate AreChains(a: Archiver, base: nat, s: seq<Byte>, t: seq<Byte>, u: seq<Byte>)
    reads a, a.astart, a.amiddle, a.aend
  {
    var p, q := a.astart.size, a.amiddle.size;
    && s == SymBytes(a.astart.sym, base) && t == SymBytes(a.amiddle.sym, base + p)
    && u == SymBytes(a.aend.sym, base + p + q) && |s| + |t| + |u| == a.symdefsize
  }

  lemma ChainsLength(a: Archiver, base: nat) returns (s: seq<Byte>, t: seq<Byte>, u: seq<Byte>)
    requires a.symdefsize == SymSize(a.astart.sym) + SymSize(a.amiddle.sym) + SymSize(a.aend.sym)
    ensures AreChains(a, base, s, t, u)
  {
    var p, q := a.astart.size, a.amiddle.size;
    SymSizeIsLength(a.astart.sym, base);
    SymSizeIsLength(a.amiddle.sym, base + p);
    SymSizeIsLength(a.aend.sym, base + p + q);
    s, t, u := SymBytes(a.astart.sym, base), SymBytes(a.amiddle.sym, base + p), SymBytes(a.aend.sym, base + p + q);
  }

  /** The symbol table of the archive: its bytes are those of the three chains. */
  lemma TableFor(a: Archiver, base: nat, s: seq<Byte>, t: seq<Byte>, u: seq<Byte>,
                 x: seq<Input>, y: seq<Input>, z: seq<Input>) returns (es: seq<Entry>)
    requires ChainFits(a.astart.sym, a.astart.size, x) && ChainFits(a.amiddle.sym, a.amiddle.size, y)
    requires ChainFits(a.aend.sym, a.aend.size, z) && AreChains(a, base, s, t, u)
    ensures IsTable(es, base, x + y + z) && EntriesBytes(es) == s + t + u
  {
    es := ChainsTable(a.astart.sym, a.amiddle.sym, a.aend.sym, base, a.astart.size, a.amiddle.size, a.aend.size,
                      x, y, z);
  }

  lemma ObjectBytes(a: Archiver, base: nat, s: seq<Byte>, t: seq<Byte>, u: seq<Byte>, head: seq<Byte>,
                    x: seq<Input>, y: seq<Input>, z: seq<Input>)
    requires AreChains(a, base, s, t, u)
    requires a.astart.all == MembersOf(x) && a.amiddle.all == MembersOf(y) && a.aend.all == MembersOf(z)
    ensures a.Filled(a.Tabled(head, base)) ==
            head + s + t + u + Pad(a.symdefsize) + Images(MembersOf(x)) + Images(MembersOf(y)) + Images(MembersOf(z))
  {
  }

  lemma FilesFit(a: Archiver, x: seq<Input>, y: seq<Input>, z: seq<Input>)
    requires a.Valid() && a.allobj && !a.dupfound && AllHold(a, x, y, z)
    ensures ChainFits(a.astart.sym, a.astart.size, x) && ChainFits(a.amiddle.sym, a.amiddle.size, y)
    ensures ChainFits(a.aend.sym, a.aend.size, z)
  {
    FileFits(a, a.astart, x);
    FileFits(a, a.amiddle, y);
    FileFits(a, a.aend, z);
  }

  lemma TabledArchive(archive: seq<Byte>, date: seq<Byte>, es: seq<Entry>, inputs: seq<Input>, n: nat)
    requires |date| <= 12 && SizeFits(Padded(n)) && n == |EntriesBytes(es)|
    requires IsTable(es, Base(n), inputs) && archive == WithTable(date, es, inputs)
    ensures IsArchive(archive, date, inputs, true)
  {
    assert TableOf(archive, date, es, inputs);
  }

  lemma PlainArchive(a: Archiver, x: seq<Input>, y: seq<Input>, z: seq<Input>)
    requires a.astart.all == MembersOf(x) && a.amiddle.all == MembersOf(y) && a.aend.all == MembersOf(z)
    ensures a.Filled(ARMAG) == ARMAG + Images(MembersOf(x + y + z))
  {
    ImagesOfThree(x, y, z);
    Regrouped(ARMAG, [], [], [], [], Images(MembersOf(x)), Images(MembersOf(y)), Images(MembersOf(z)));
  }

  /**
   * install, on temp files whose members are known: their archive, unless they are objects and a text symbol came
   * twice.
   */
  method Finish(a: Archiver, date: seq<Byte>, ghost x: seq<Input>, ghost y: seq<Input>, ghost z: seq<Input>)
    returns (archive: Option<seq<Byte>>)
    requires a.Valid() && AllHold(a, x, y, z) && |date| <= 12 && SizeFits(Padded(a.symdefsize))
    ensures archive.None? <==> a.allobj && Repeats(a.seen)
    ensures archive.Some? ==> IsArchive(archive.value, date, x + y + z, a.allobj)
  {
    archive := a.Install(date);
    if archive.Some? {
      if a.allobj {
        FilesFit(a, x, y, z);
        ghost var base := Base(a.symdefsize);
        ghost var s, t, u := ChainsLength(a, base);
        ghost var es := TableFor(a, base, s, t, u, x, y, z);
        ObjectBytes(a, base, s, t, u, ARMAG + SymHeader(date, Padded(a.symdefsize)), x, y, z);
        LaidWithTable(date, a.symdefsize, s, t, u, es, x, y, z);
        TabledArchive(archive.value, date, es, x + y + z, a.symdefsize);
      } else {
        PlainArchive(a, x, y, z);
      }
    }
  }
}
