// ar's temp files: chains of members that spill to disk, with the symbols their members define.

/** objsym, arinsert, arcopy, armove, page and arstream of sys/src/cmd/ar.c. */
module ArFile {

  type Byte = int

  const SAR_HDR := 60

  /** A member: its header, the size that the header gives, and its contents padded to an even length. */
  datatype Member = Member(hdr: seq<Byte>, size: nat, body: seq<Byte>)

  /** A symbol as objtraverse hands it over: the type is a letter. */
  datatype Symbol = Symbol(kind: char, name: seq<Byte>)

  /** An entry of the symbol chain. */
  datatype Symref = Symref(kind: char, name: seq<Byte>, offset: nat)

  function Padded(n: nat): nat {
    n + n % 2
  }

  predicate Fits(m: Member) {
    |m.hdr| == SAR_HDR && |m.body| == Padded(m.size)
  }

  /** Text and data symbols are the ones that count. */
  predicate Counts(s: Symbol) {
    s.kind == 'T' || s.kind == 'D'
  }

  function Image(m: Member): seq<Byte> {
    m.hdr + m.body
  }

  function Images(ms: seq<Member>): seq<Byte> {
    if ms == [] then [] else Images(ms[..|ms| - 1]) + Image(ms[|ms| - 1])
  }

  lemma {:induction false} ImagesConcat(a: seq<Member>, b: seq<Member>)
    ensures Images(a + b) == Images(a) + Images(b)
    decreases |b|
  {
    if b == [] {
      assert a + b == a;
    } else {
      assert (a + b)[..|a + b| - 1] == a + b[..|b| - 1];
      ImagesConcat(a, b[..|b| - 1]);
    }
  }

  /** A temp file holds the members `all`: what was spilled first and then those in core. */
  predicate Holds(paged: bool, disk: seq<Byte>, chain: seq<Member>, size: nat, all: seq<Member>) {
    && disk + Images(chain) == Images(all) && (!paged ==> disk == []) && size == |Images(all)|
    && forall k :: 0 <= k < |chain| ==> Fits(chain[k])
  }

  lemma ChainGrows(paged: bool, disk: seq<Byte>, chain: seq<Member>, size: nat, all: seq<Member>, m: Member)
    requires Holds(paged, disk, chain, size, all) && Fits(m)
    ensures Holds(paged, disk, chain + [m], size + Padded(m.size) + SAR_HDR, all + [m])
  {
    assert (chain + [m])[..|chain|] == chain && (all + [m])[..|all|] == all;
    assert (disk + Images(chain)) + Image(m) == disk + (Images(chain) + Image(m));
  }

  lemma ChainShrinks(disk: seq<Byte>, chain: seq<Member>)
    requires chain != []
    ensures disk + Image(chain[0]) + Images(chain[1..]) == disk + Images(chain)
  {
    var m := chain[0];
    assert chain == [m] + chain[1..];
    ImagesConcat([m], chain[1..]);
    assert [m][..0] == [] && Images([m]) == [] + Image(m);
  }

  /** Where member k of a run begins. */
  function Start(ms: seq<Member>, k: nat): nat
    requires k <= |ms|
  {
    |Images(ms[..k])|
  }

  /** x stands in a at off. */
  ghost predicate FoundAt(a: seq<Byte>, off: nat, x: seq<Byte>) {
    exists before, after :: |before| == off && a == Joined(before, x, after)
  }

  function Joined(before: seq<Byte>, x: seq<Byte>, after: seq<Byte>): seq<Byte> {
    before + x + after
  }

  lemma FoundWithin(a: seq<Byte>, off: nat, x: seq<Byte>, off': nat, y: seq<Byte>)
    requires FoundAt(a, off, x) && FoundAt(x, off', y)
    ensures FoundAt(a, off + off', y)
  {
    var b, c :| |b| == off && a == Joined(b, x, c);
    var b', c' :| |b'| == off' && x == Joined(b', y, c');
    assert b + (b' + y + c') + c == (b + b') + y + (c' + c);
    assert a == Joined(b + b', y, c' + c);
  }

  lemma FoundThere(a: seq<Byte>, off: nat, x: seq<Byte>)
    requires FoundAt(a, off, x)
    ensures off + |x| <= |a| && a[off..off + |x|] == x
  {
  }

  lemma Between(before: seq<Byte>, x: seq<Byte>, after: seq<Byte>)
    ensures FoundAt(before + x + after, |before|, x)
  {
    assert before + x + after == Joined(before, x, after);
  }

  /** At the start of a member its image is found. */
  lemma ImageAtStart(ms: seq<Member>, k: nat)
    requires k < |ms|
    ensures FoundAt(Images(ms), Start(ms, k), Image(ms[k]))
  {
    SplitImages(ms, k);
    Between(Images(ms[..k]), Image(ms[k]), Images(ms[k + 1..]));
  }

  lemma SplitImages(ms: seq<Member>, k: nat)
    requires k < |ms|
    ensures Images(ms) == Images(ms[..k]) + Image(ms[k]) + Images(ms[k + 1..])
  {
    var a, b := ms[..k + 1], ms[k + 1..];
    var x, y := Images(a), Images(b);
    ImagesOfSum(ms, a, b);
    NextImage(ms, k);
    assert Images(ms) == x + y;
  }

  lemma ImagesOfSum(ms: seq<Member>, a: seq<Member>, b: seq<Member>)
    requires ms == a + b
    ensures Images(ms) == Images(a) + Images(b)
  {
    ImagesConcat(a, b);
  }

  lemma NextImage(ms: seq<Member>, k: nat)
    requires k < |ms|
    ensures Images(ms[..k + 1]) == Images(ms[..k]) + Image(ms[k])
  {
    assert ms[..k + 1][..k] == ms[..k];
  }

  lemma StartStays(ms: seq<Member>, m: Member, k: nat)
    requires k <= |ms|
    ensures Start(ms + [m], k) == Start(ms, k)
  {
    assert (ms + [m])[..k] == ms[..k];
  }

  /** Entry i of the chain stands for a symbol of the member that begins at its offset. */
  ghost predicate Points(sym: seq<Symref>, owners: seq<nat>, ms: seq<Member>, defs: seq<seq<Symbol>>, i: nat)
    requires i < |sym| == |owners| && |ms| <= |defs| <= |ms| + 1
  {
    && owners[i] < |defs| && sym[i].offset == Start(ms, owners[i])
    && Symbol(sym[i].kind, sym[i].name) in defs[owners[i]] && Counts(Symbol(sym[i].kind, sym[i].name))
  }

  /** Symbol s of member k is in the chain. */
  ghost predicate Listed(sym: seq<Symref>, owners: seq<nat>, k: nat, s: Symbol)
    requires |sym| == |owners|
  {
    exists i :: 0 <= i < |sym| && owners[i] == k && sym[i].kind == s.kind && sym[i].name == s.name
  }

  ghost predicate AllPoint(sym: seq<Symref>, owners: seq<nat>, ms: seq<Member>, defs: seq<seq<Symbol>>) {
    && |sym| == |owners| && |ms| <= |defs| <= |ms| + 1
    && forall i :: 0 <= i < |sym| ==> Points(sym, owners, ms, defs, i)
  }

  ghost predicate AllListed(sym: seq<Symref>, owners: seq<nat>, defs: seq<seq<Symbol>>) {
    && |sym| == |owners|
    && forall k, s :: 0 <= k < |defs| && s in defs[k] && Counts(s) ==> Listed(sym, owners, k, s)
  }

  /** The symbols so far with one more of the member being scanned. */
  function Scanned(defs: seq<seq<Symbol>>, s: Symbol): seq<seq<Symbol>>
    requires defs != []
  {
    defs[|defs| - 1 := defs[|defs| - 1] + [s]]
  }

  lemma PointStays(sym: seq<Symref>, owners: seq<nat>, ms: seq<Member>, defs: seq<seq<Symbol>>, s: Symbol)
    requires AllPoint(sym, owners, ms, defs) && |defs| == |ms| + 1
    ensures AllPoint(sym, owners, ms, Scanned(defs, s))
  {
    forall i | 0 <= i < |sym| ensures Points(sym, owners, ms, Scanned(defs, s), i) {
      assert Points(sym, owners, ms, defs, i);
    }
  }

  lemma PointNew(sym: seq<Symref>, owners: seq<nat>, ms: seq<Member>, defs: seq<seq<Symbol>>, s: Symbol)
    requires AllPoint(sym, owners, ms, defs) && |defs| == |ms| + 1 && Counts(s)
    ensures AllPoint([Symref(s.kind, s.name, |Images(ms)|)] + sym, [|ms|] + owners, ms, Scanned(defs, s))
  {
    PointStays(sym, owners, ms, defs, s);
    var sym', owners' := [Symref(s.kind, s.name, |Images(ms)|)] + sym, [|ms|] + owners;
    assert ms[..|ms|] == ms;
    forall i | 0 <= i < |sym'| ensures Points(sym', owners', ms, Scanned(defs, s), i) {
      assert i > 0 ==> Points(sym, owners, ms, Scanned(defs, s), i - 1);
    }
  }

  lemma PointInserted(sym: seq<Symref>, owners: seq<nat>, ms: seq<Member>, defs: seq<seq<Symbol>>, m: Member)
    requires AllPoint(sym, owners, ms, defs) && |defs| == |ms| + 1
    ensures AllPoint(sym, owners, ms + [m], defs)
  {
    forall i | 0 <= i < |sym| ensures Points(sym, owners, ms + [m], defs, i) {
      assert Points(sym, owners, ms, defs, i);
      StartStays(ms, m, owners[i]);
    }
  }

  lemma PointOpened(sym: seq<Symref>, owners: seq<nat>, ms: seq<Member>, defs: seq<seq<Symbol>>)
    requires AllPoint(sym, owners, ms, defs) && |defs| == |ms|
    ensures AllPoint(sym, owners, ms, defs + [[]])
  {
    forall i | 0 <= i < |sym| ensures Points(sym, owners, ms, defs + [[]], i) {
      assert Points(sym, owners, ms, defs, i);
    }
  }

  lemma ListedNew(sym: seq<Symref>, owners: seq<nat>, defs: seq<seq<Symbol>>, s: Symbol, offset: nat)
    requires AllListed(sym, owners, defs) && defs != []
    ensures AllListed([Symref(s.kind, s.name, offset)] + sym, [|defs| - 1] + owners, Scanned(defs, s))
  {
    var sym', owners' := [Symref(s.kind, s.name, offset)] + sym, [|defs| - 1] + owners;
    forall k, t | 0 <= k < |defs| && t in Scanned(defs, s)[k] && Counts(t) ensures Listed(sym', owners', k, t) {
      if t in defs[k] {
        assert Listed(sym, owners, k, t);
        var i :| 0 <= i < |sym| && owners[i] == k && sym[i].kind == t.kind && sym[i].name == t.name;
        assert owners'[i + 1] == k && sym'[i + 1] == sym[i];
      } else {
        assert owners'[0] == k && sym'[0].kind == t.kind;
      }
    }
  }

  lemma ListedSkips(sym: seq<Symref>, owners: seq<nat>, defs: seq<seq<Symbol>>, s: Symbol)
    requires AllListed(sym, owners, defs) && defs != [] && !Counts(s)
    ensures AllListed(sym, owners, Scanned(defs, s))
  {
    forall k, t | 0 <= k < |defs| && t in Scanned(defs, s)[k] && Counts(t) ensures Listed(sym, owners, k, t) {
      assert t in defs[k];
    }
  }

  /** A temp file: what was spilled to disk, and the chain of members still in core. */
  class Arfile {
    var paged: bool
    var disk: seq<Byte>
    var chain: seq<Member>
    var size: nat
    var sym: seq<Symref>
    /** All members inserted, the symbols scanned for each, and the member that each entry of sym is about. */
    ghost var all: seq<Member>
    ghost var defs: seq<seq<Symbol>>
    ghost var owners: seq<nat>

    ghost predicate Shape()
      reads this
    {
      Holds(paged, disk, chain, size, all) && AllPoint(sym, owners, all, defs)
    }

    ghost predicate Valid()
      reads this
    {
      Shape() && |defs| == |all|
    }

    /** While the member that comes next is being scanned. */
    ghost predicate Scanning()
      reads this
    {
      Shape() && |defs| == |all| + 1
    }

    constructor ()
      ensures Valid() && all == [] && sym == [] && defs == [] && AllListed(sym, owners, defs)
    {
      paged, disk, chain, size, sym := false, [], [], 0, [];
      all, defs, owners := [], [], [];
    }

    /** The beginning of scanobj. */
    ghost method Open()
      requires Valid()
      modifies this`defs
      ensures Scanning() && defs == old(defs) + [[]]
      ensures AllListed(sym, owners, old(defs)) ==> AllListed(sym, owners, defs)
    {
      PointOpened(sym, owners, all, defs);
      defs := defs + [[]];
    }

    /** objsym on a symbol that does not count, or that is a duplicate. */
    ghost method Pass(s: Symbol)
      requires Scanning()
      modifies this`defs
      ensures Scanning() && defs == Scanned(old(defs), s)
      ensures !Counts(s) && AllListed(sym, owners, old(defs)) ==> AllListed(sym, owners, defs)
    {
      PointStays(sym, owners, all, defs, s);
      if !Counts(s) && AllListed(sym, owners, defs) {
        ListedSkips(sym, owners, defs, s);
      }
      defs := Scanned(defs, s);
    }

    /** objsym on a symbol that goes into the chain: it is about the member that will be inserted next. */
    method Enter(s: Symbol)
      requires Scanning() && Counts(s)
      modifies this`sym, this`defs, this`owners
      ensures Scanning() && defs == Scanned(old(defs), s) && sym == [Symref(s.kind, s.name, size)] + old(sym)
      ensures AllListed(old(sym), old(owners), old(defs)) ==> AllListed(sym, owners, defs)
    {
      PointNew(sym, owners, all, defs, s);
      if AllListed(sym, owners, defs) {
        ListedNew(sym, owners, defs, s, size);
      }
      sym := [Symref(s.kind, s.name, size)] + sym;
      owners := [|all|] + owners;
      defs := Scanned(defs, s);
    }

    /** arinsert, and the accounting that follows it in arcopy and armove. */
    method Insert(m: Member)
      requires Scanning() && Fits(m)
      modifies this`chain, this`size, this`all
      ensures Valid() && all == old(all) + [m]
    {
      PointInserted(sym, owners, all, defs, m);
      ChainGrows(paged, disk, chain, size, all, m);
      chain := chain + [m];
      all := all + [m];
      var n := m.size;
      if n % 2 == 1 {
        n := n + 1;
      }
      size := size + n + SAR_HDR;
    }

    /** arwrite. */
    method ArWrite(fd: seq<Byte>, m: Member) returns (fd': seq<Byte>)
      requires Fits(m)
      ensures fd' == fd + Image(m)
    {
      var len := m.size;
      if len % 2 == 1 {
        len := len + 1;
      }
      fd' := fd + m.hdr + m.body[..len];
      assert m.body[..len] == m.body;
    }

    /** page: the first member in core goes to disk. */
    method Page()
      requires Shape() && chain != []
      modifies this`paged, this`disk, this`chain
      ensures Shape()
    {
      var m := chain[0];
      paged := true;
      ChainShrinks(disk, chain);
      disk := ArWrite(disk, m);
      chain := chain[1..];
    }

    /** arstream: first what is on disk, then what is in core, and that is all members in order. */
    method Stream(fd: seq<Byte>) returns (fd': seq<Byte>)
      requires Shape()
      ensures fd' == fd + Images(all)
    {
      fd' := fd;
      if paged {
        fd' := fd' + disk;
      }
      for k := 0 to |chain|
        invariant fd' == fd + disk + Images(chain[..k])
      {
        assert chain[..k + 1][..k] == chain[..k];
        fd' := ArWrite(fd', chain[k]);
      }
      assert chain[..|chain|] == chain;
    }
  }
}
