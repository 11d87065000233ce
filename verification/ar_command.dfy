// ar as a whole: members go into temp files with their symbols, and the archive is put together.

module ArCommand {
  import opened ArFile
  import opened ArInstall

  /** The symbols known of one member more. */
  predicate Longer(was: seq<seq<Symbol>>, defs: seq<seq<Symbol>>) {
    |defs| == |was| + 1 && defs[..|was|] == was
  }

  /** Some text symbol comes twice. */
  ghost predicate Repeats(syms: seq<Symbol>) {
    exists i, j :: 0 <= i < j < |syms| && syms[i].kind == 'T' && syms[i] == syms[j]
  }

  lemma RepeatsNext(syms: seq<Symbol>, s: Symbol)
    ensures Repeats(syms + [s]) <==> Repeats(syms) || (s.kind == 'T' && s in syms)
  {
    var syms' := syms + [s];
    if Repeats(syms) {
      var i, j :| 0 <= i < j < |syms| && syms[i].kind == 'T' && syms[i] == syms[j];
      assert syms'[i] == syms'[j];
    } else if s.kind == 'T' && s in syms {
      var i :| 0 <= i < |syms| && syms[i] == s;
      assert syms'[i] == syms'[|syms|];
    }
  }

  class Archiver {
    const astart: Arfile
    const amiddle: Arfile
    const aend: Arfile
    var allobj: bool
    var dupfound: bool
    var symdefsize: nat
    /** The text symbols seen so far. */
    var names: set<seq<Byte>>
    /** All symbols seen so far. */
    ghost var seen: seq<Symbol>

    /** The names are those of the text symbols, and a duplicate is noticed. */
    ghost predicate Noted()
      reads this`names, this`dupfound, this`seen
    {
      (forall n :: n in names <==> Symbol('T', n) in seen) && (dupfound <==> Repeats(seen))
    }

    ghost predicate Apart() {
      astart != amiddle && astart != aend && amiddle != aend
    }

    /** What holds of the three temp files together, whatever state each is in. */
    ghost predicate Common()
      reads this, astart, amiddle, aend
    {
      && Apart() && Noted() && astart.Shape() && amiddle.Shape() && aend.Shape()
      && symdefsize == SymSize(astart.sym) + SymSize(amiddle.sym) + SymSize(aend.sym)
      && (!dupfound ==> Complete(astart) && Complete(amiddle) && Complete(aend))
    }

    static ghost predicate Complete(ap: Arfile)
      reads ap`sym, ap`owners, ap`defs
    {
      AllListed(ap.sym, ap.owners, ap.defs)
    }

    ghost predicate Valid()
      reads this, astart, amiddle, aend
    {
      Common() && astart.Valid() && amiddle.Valid() && aend.Valid()
    }

    constructor ()
      ensures Valid() && allobj && !dupfound && fresh(astart) && fresh(amiddle) && fresh(aend)
      ensures astart.all == amiddle.all == aend.all == [] && seen == []
    {
      astart := new Arfile();
      amiddle := new Arfile();
      aend := new Arfile();
      allobj, dupfound, symdefsize, names, seen := true, false, 0, {}, [];
    }

    /** duplicate: whether a text symbol was seen before. */
    method Duplicate(name: seq<Byte>) returns (yes: bool)
      modifies this`names
      ensures yes == (name in old(names)) && names == old(names) + {name}
    {
      yes := name in names;
      names := names + {name};
    }

    /** objsym, on the symbols of the file that goes into ap next. */
    method ObjSym(ap: Arfile, s: Symbol)
      requires ap.Scanning() && Noted() && (!dupfound ==> Complete(ap))
      modifies this`names, this`dupfound, this`symdefsize, this`seen, ap`sym, ap`defs, ap`owners
      ensures ap.Scanning() && ap.defs == Scanned(old(ap.defs), s)
      ensures Noted() && seen == old(seen) + [s]
      ensures (!dupfound ==> !old(dupfound) && Complete(ap))
      ensures symdefsize - SymSize(ap.sym) == old(symdefsize - SymSize(ap.sym))
    {
      RepeatsNext(seen, s);
      seen := seen + [s];
      if s.kind != 'T' && s.kind != 'D' {
        ap.Pass(s);
        return;
      }
      var n := |s.name|;
      if s.kind == 'T' {
        var again := Duplicate(s.name);
        if again {
          dupfound := true;
          ap.Pass(s);
          return;
        }
      }
      symdefsize := symdefsize + 4 + (n + 1) + 1;
      ap.Enter(s);
    }

    /** The symbols scanned so far of the member that goes into ap next, after those of the members in it. */
    ghost predicate Recorded(ap: Arfile, defs: seq<seq<Symbol>>, was: seq<Symbol>, syms: seq<Symbol>)
      reads this`names, this`dupfound, this`seen, ap
    {
      && ap.Scanning() && ap.defs == defs + [syms]
      && Noted() && seen == was + syms && (!dupfound ==> Complete(ap))
    }

    /** objtraverse, which hands one symbol after another to objsym. */
    method Traverse(ap: Arfile, syms: seq<Symbol>, ghost defs: seq<seq<Symbol>>, ghost was: seq<Symbol>)
      requires Recorded(ap, defs, was, [])
      modifies this`names, this`dupfound, this`symdefsize, this`seen, ap`sym, ap`defs, ap`owners
      ensures Recorded(ap, defs, was, syms) && (old(dupfound) ==> dupfound)
      ensures symdefsize - SymSize(ap.sym) == old(symdefsize - SymSize(ap.sym))
    {
      for i := 0 to |syms|
        invariant Recorded(ap, defs, was, syms[..i]) && (old(dupfound) ==> dupfound)
        invariant symdefsize - SymSize(ap.sym) == old(symdefsize - SymSize(ap.sym))
      {
        ObjSym(ap, syms[i]);
        RecordedNext(ap, defs, was, syms, i);
      }
      assert syms[..|syms|] == syms;
    }

    lemma RecordedNext(ap: Arfile, defs: seq<seq<Symbol>>, was: seq<Symbol>, syms: seq<Symbol>, i: nat)
      requires i < |syms| && ap.defs == Scanned(defs + [syms[..i]], syms[i]) && seen == was + syms[..i] + [syms[i]]
      ensures ap.defs == defs + [syms[..i + 1]] && seen == was + syms[..i + 1]
    {
      assert syms[..i + 1] == syms[..i] + [syms[i]];
    }

    /** scanobj: the symbols of an object file, unless something else has been seen that is not one. */
    method ScanObj(ap: Arfile, scan: Scan)
      requires ap.Valid() && Noted() && (!dupfound ==> Complete(ap))
      modifies this`names, this`dupfound, this`symdefsize, this`seen, this`allobj, ap`sym, ap`defs, ap`owners
      ensures ap.Scanning() && Noted() && allobj == (old(allobj) && scan.Object?)
      ensures allobj ==> seen == old(seen) + scan.syms
      ensures (!dupfound ==> !old(dupfound) && Complete(ap))
      ensures symdefsize - SymSize(ap.sym) == old(symdefsize - SymSize(ap.sym))
      ensures Longer(old(ap.defs), ap.defs) && (allobj ==> ap.defs == old(ap.defs) + [scan.syms])
    {
      ghost var defs, was := ap.defs, seen;
      ap.Open();
      if !allobj {
        return;
      }
      if scan.NoObject? {
        allobj := false;
        return;
      }
      Traverse(ap, scan.syms, defs, was);
    }

    /** getspace: a member in core goes to disk, if there is one. */
    method GetSpace() returns (ok: bool)
      requires Common()
      modifies astart`paged, astart`disk, astart`chain
      modifies amiddle`paged, amiddle`disk, amiddle`chain
      modifies aend`paged, aend`disk, aend`chain
      ensures Common()
    {
      if astart.chain != [] {
        astart.Page();
        return true;
      }
      if amiddle.chain != [] {
        amiddle.Page();
        return true;
      }
      if aend.chain != [] {
        aend.Page();
        return true;
      }
      return false;
    }

    /** Memory runs out any number of times. */
    method Spill(times: nat)
      requires Common()
      modifies astart`paged, astart`disk, astart`chain
      modifies amiddle`paged, amiddle`disk, amiddle`chain
      modifies aend`paged, aend`disk, aend`chain
      ensures Common()
    {
      for i := 0 to times
        invariant Common()
      {
        var ok := GetSpace();
      }
    }

    /** One file is waiting for the member that has been scanned, the others are at rest. */
    ghost predicate Waiting(ap: Arfile)
      reads this, astart, amiddle, aend
    {
      && Common() && ap in {astart, amiddle, aend}
      && |astart.defs| == |astart.all| + (if astart == ap then 1 else 0)
      && |amiddle.defs| == |amiddle.all| + (if amiddle == ap then 1 else 0)
      && |aend.defs| == |aend.all| + (if aend == ap then 1 else 0)
    }

    /** arcopy or armove of the member that was scanned. */
    method Place(ap: Arfile, m: Member, between: nat)
      requires Waiting(ap) && Fits(m)
      modifies astart`paged, astart`disk, astart`chain, amiddle`paged, amiddle`disk, amiddle`chain
      modifies aend`paged, aend`disk, aend`chain, ap`size, ap`all
      ensures Valid() && ap.all == old(ap.all) + [m]
    {
      Spill(between);
      ap.Insert(m);
    }

    /**
     * scanobj and then arcopy or armove: a member goes to the end of a temp file, while memory may run out before its
     * symbols are entered and before its contents are.
     */
    method Add(ap: Arfile, m: Member, scan: Scan, before: nat, between: nat)
      requires Valid() && ap in {astart, amiddle, aend} && Fits(m)
      modifies this, astart, amiddle, aend
      ensures Valid() && allobj == (old(allobj) && scan.Object?)
      ensures allobj ==> seen == old(seen) + scan.syms
      ensures ap.all == old(ap.all) + [m]
      ensures Longer(old(ap.defs), ap.defs) && (allobj ==> ap.defs == old(ap.defs) + [scan.syms])
      ensures forall a :: a in {astart, amiddle, aend} && a != ap ==> a.all == old(a.all) && a.defs == old(a.defs)
    {
      Spill(before);
      ScanObj(ap, scan);
      Place(ap, m, between);
    }

    /** The symbol table for an archive whose members begin at `base`, written after `head`. */
    ghost function Tabled(head: seq<Byte>, base: nat): seq<Byte>
      reads this, astart, amiddle, aend
    {
      head + SymBytes(astart.sym, base) + SymBytes(amiddle.sym, base + astart.size) +
      SymBytes(aend.sym, base + astart.size + amiddle.size) + Pad(symdefsize)
    }

    /** The members of the three files, written after `head`. */
    ghost function Filled(head: seq<Byte>): seq<Byte>
      reads astart, amiddle, aend
    {
      head + Images(astart.all) + Images(amiddle.all) + Images(aend.all)
    }

    /** The part of rl after the header: three calls of wrsym and the padding. */
    method WrTables(fd: seq<Byte>, base: nat) returns (out: seq<Byte>)
      ensures out == Tabled(fd, base)
    {
      var len := base;
      out := WrSym(fd, len, astart.sym);
      len := len + astart.size;
      out := WrSym(out, len, amiddle.sym);
      len := len + amiddle.size;
      out := WrSym(out, len, aend.sym);
      out := WrPad(out);
    }

    /** The padding at the end of rl. */
    method WrPad(fd: seq<Byte>) returns (out: seq<Byte>)
      ensures out == fd + Pad(symdefsize)
    {
      out := fd;
      if symdefsize % 2 == 1 {
        out := out + [0];
      }
    }

    /** rl: the symbol table as a member at the beginning of the archive. */
    method Rl(fd: seq<Byte>, date: seq<Byte>) returns (out: seq<Byte>)
      requires |fd| == SARMAG && |date| <= 12 && SizeFits(Padded(symdefsize))
      ensures out == Tabled(fd + SymHeader(date, Padded(symdefsize)), Base(symdefsize))
    {
      var len: nat := symdefsize;
      if len % 2 == 1 {
        len := len + 1;
      }
      var header := SymHeader(date, len);
      out := fd + header;
      len := len + |out|;
      out := WrTables(out, len);
    }

    /** install: the archive, unless it is one of objects with a text symbol defined twice. */
    method Install(date: seq<Byte>) returns (archive: Option<seq<Byte>>)
      requires Valid() && |date| <= 12 && SizeFits(Padded(symdefsize))
      ensures archive.None? <==> allobj && dupfound
      ensures archive.Some? && !allobj ==> archive.value == Filled(ARMAG)
      ensures archive.Some? && allobj ==>
                archive.value == Filled(Tabled(ARMAG + SymHeader(date, Padded(symdefsize)), Base(symdefsize)))
    {
      if allobj && dupfound {
        return None;
      }
      var fd := ARMAG;
      if allobj {
        fd := Rl(fd, date);
      }
      fd := StreamAll(fd);
      archive := Some(fd);
    }

    /** The streaming of the three files in install. */
    method StreamAll(fd: seq<Byte>) returns (out: seq<Byte>)
      requires Common()
      ensures out == Filled(fd)
    {
      out := astart.Stream(fd);
      out := amiddle.Stream(out);
      out := aend.Stream(out);
    }

    /** The size in the header of the table counts the bytes between that header and the first member. */
    lemma TableFills(head: seq<Byte>, base: nat)
      requires Common()
      ensures |Tabled(head, base)| == |head| + Padded(symdefsize)
    {
      SymSizeIsLength(astart.sym, base);
      SymSizeIsLength(amiddle.sym, base + astart.size);
      SymSizeIsLength(aend.sym, base + astart.size + amiddle.size);
    }

    /** Where the members of a file begin in the archive. */
    ghost function Origin(ap: Arfile, base: nat): nat
      requires ap in {astart, amiddle, aend}
      reads this, astart, amiddle, aend
    {
      if ap == astart then base else if ap == amiddle then base + astart.size else base + astart.size + amiddle.size
    }

    /** The members of every file stand in the archive from where wrsym was told that they begin. */
    lemma FileFound(head: seq<Byte>, ap: Arfile)
      requires Common() && ap in {astart, amiddle, aend}
      ensures FoundAt(Filled(head), Origin(ap, |head|), Images(ap.all))
    {
      ThreeFound(head, Images(astart.all), Images(amiddle.all), Images(aend.all));
    }

    /**
     * Every entry of the symbol table carries the offset in the archive of the member that defines its symbol, header
     * first.
     */
    lemma EntriesPointHome(head: seq<Byte>, ap: Arfile, i: nat)
      requires Valid() && ap in {astart, amiddle, aend} && i < |ap.sym|
      ensures ap.owners[i] < |ap.all|
      ensures var e := EntryOf(ap.sym[i], Origin(ap, |head|));
              && FoundAt(Filled(head), e.offset, Image(ap.all[ap.owners[i]]))
              && Symbol(e.kind, e.name) in ap.defs[ap.owners[i]]
    {
      FileFound(head, ap);
      assert Points(ap.sym, ap.owners, ap.all, ap.defs, i);
      MemberFound(Filled(head), Origin(ap, |head|), ap.all, ap.owners[i]);
    }

    /** Unless a text symbol came twice, every text and data symbol of every member has its entry. */
    lemma NoneIsMissing(ap: Arfile, k: nat, s: Symbol, base: nat)
      requires Valid() && !dupfound && ap in {astart, amiddle, aend} && k < |ap.all| && s in ap.defs[k] && Counts(s)
      ensures exists i :: 0 <= i < |ap.sym| &&
                          EntryOf(ap.sym[i], base) == Entry(s.kind, s.name, base + Start(ap.all, k))
    {
      assert Listed(ap.sym, ap.owners, k, s);
      var i :| 0 <= i < |ap.sym| && ap.owners[i] == k && ap.sym[i].kind == s.kind && ap.sym[i].name == s.name;
      assert Points(ap.sym, ap.owners, ap.all, ap.defs, i);
      assert EntryOf(ap.sym[i], base) == Entry(s.kind, s.name, base + Start(ap.all, k));
    }
  }

  lemma ThreeFound(head: seq<Byte>, a: seq<Byte>, b: seq<Byte>, c: seq<Byte>)
    ensures FoundAt(head + a + b + c, |head|, a)
    ensures FoundAt(head + a + b + c, |head| + |a|, b)
    ensures FoundAt(head + a + b + c, |head| + |a| + |b|, c)
  {
    Between(head, a, b + c);
    Between(head + a, b, c);
    Between(head + a + b, c, []);
    assert head + a + (b + c) == head + a + b + c == head + a + b + c + [];
  }

  /** A member of a run that stands at `base`. */
  lemma MemberFound(a: seq<Byte>, base: nat, ms: seq<Member>, k: nat)
    requires FoundAt(a, base, Images(ms)) && k < |ms|
    ensures FoundAt(a, base + Start(ms, k), Image(ms[k]))
  {
    ImageAtStart(ms, k);
    FoundWithin(a, base, Images(ms), Start(ms, k), Image(ms[k]));
  }

  function Pad(n: nat): (p: seq<Byte>)
    ensures |p| == n % 2
  {
    if n % 2 == 1 then [0] else []
  }

  /** Where the first member begins after a symbol table of n bytes. */
  function Base(n: nat): nat {
    SARMAG + SAR_HDR + Padded(n)
  }
}
