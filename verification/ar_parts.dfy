// What ar's member loops share: names on the command line, the pivot, and sending members to the temp files.

/** match and bamatch of sys/src/cmd/ar.c, and what a loop over the members of an archive has sent where. */
module ArParts {
  import opened ArFile
  import opened ArInstall
  import opened ArCommand
  import opened ArArchive

  // ----- names on the command line ------------------------------------------------------

  /** What opening a file finds. */
  datatype Found = Missing | Present(mtime: int, input: Input)

  /** A file named on the command line: its path, the name trim makes of it, and what is found there. */
  datatype Arg = Arg(path: Name, name: Name, found: Found)

  predicate Answers(arg: Option<Arg>, name: Name) {
    arg.Some? && arg.value.name == name
  }

  /** The first argument that still answers to a name, or the number of arguments. */
  function Place(files: seq<Option<Arg>>, name: Name): (p: nat)
    ensures p <= |files| && (p < |files| ==> Answers(files[p], name))
    ensures forall k :: 0 <= k < p ==> !Answers(files[k], name)
  {
    if files == [] || Answers(files[0], name) then 0 else 1 + Place(files[1..], name)
  }

  function Struck(files: seq<Option<Arg>>, name: Name): (left: seq<Option<Arg>>)
    ensures |left| == |files|
  {
    var p := Place(files, name);
    if p < |files| then files[p := None] else files
  }

  /** The arguments left after n members have been compared with them; r does not compare a symbol table at the head. */
  function Remaining(files: seq<Option<Arg>>, ms: seq<Input>, n: nat, pitch: bool): (left: seq<Option<Arg>>)
    requires n <= |ms|
    ensures |left| == |files|
  {
    if n == 0 || (pitch && n == 1 && ms[0].name == SYMDEF) then files
    else Struck(Remaining(files, ms, n - 1, pitch), ms[n - 1].name)
  }

  /** The argument that member i answers to, none before it having taken it. */
  function Taken(files: seq<Option<Arg>>, ms: seq<Input>, i: nat, pitch: bool): Option<Arg>
    requires i < |ms|
  {
    var left := Remaining(files, ms, i, pitch);
    var p := Place(left, ms[i].name);
    if p < |left| then left[p] else None
  }

  /** match: the argument found is used up. */
  method Match(files: seq<Option<Arg>>, name: Name) returns (arg: Option<Arg>, files': seq<Option<Arg>>)
    ensures arg == if Place(files, name) < |files| then files[Place(files, name)] else None
    ensures files' == Struck(files, name)
  {
    for i := 0 to |files|
      invariant forall k :: 0 <= k < i ==> !Answers(files[k], name)
    {
      if files[i].None? {
        continue;
      }
      if files[i].value.name == name {
        return files[i], files[i := None];
      }
    }
    return None, files;
  }

  // ----- the pivot -------------------------------------------------------------------------

  datatype Side = Neither | After | Before

  /** The first member of that name, or the number of members. */
  function Pivot(ms: seq<Input>, pivot: Name): (p: nat)
    ensures p <= |ms| && (p < |ms| ==> ms[p].name == pivot)
    ensures forall k :: 0 <= k < p ==> ms[k].name != pivot
  {
    if ms == [] || ms[0].name == pivot then 0 else 1 + Pivot(ms[1..], pivot)
  }

  /** The member from which on members go to the last file: the pivot, or the one after it. */
  function Split(ms: seq<Input>, flag: Side, pivot: Name): nat {
    var p := Pivot(ms, pivot);
    match flag
    case Neither => |ms|
    case Before => p
    case After => if p < |ms| then p + 1 else p
  }

  /** The state of bamatch before member i. */
  function StateAt(ms: seq<Input>, flag: Side, pivot: Name, i: nat): int {
    if flag.Neither? || i <= Pivot(ms, pivot) then 0
    else if flag.After? && i == Pivot(ms, pivot) + 1 then 1
    else 2
  }

  /** bamatch. */
  method BaMatch(state: int, flag: Side, file: Name, pivot: Name, ghost ms: seq<Input>, ghost i: nat)
    returns (yes: bool, state': int)
    requires i < |ms| && file == ms[i].name && state == StateAt(ms, flag, pivot, i)
    ensures yes <==> i == Split(ms, flag, pivot)
    ensures state' == StateAt(ms, flag, pivot, i + 1)
  {
    yes, state' := false, state;
    if state == 0 {
      if flag.After? {
        if file == pivot {
          state' := 1;
        }
      } else if flag.Before? {
        if file == pivot {
          yes, state' := true, 2;
        }
      }
    } else if state == 1 {
      yes, state' := true, 2;
    }
  }

  // ----- where members go -----------------------------------------------------------------

  datatype Part = Start | Middle | End | Dropped

  /** What a round of a loop does: a member goes to one of the files, or nowhere. */
  datatype Piece = Piece(part: Part, input: Input)

  /** The members that go to one file, in order. */
  function Sent(ps: seq<Piece>, part: Part): seq<Input> {
    if ps == [] then []
    else Sent(ps[..|ps| - 1], part) + if ps[|ps| - 1].part == part then [ps[|ps| - 1].input] else []
  }

  /** The members that are not dropped, in order. */
  function Undropped(ps: seq<Piece>): seq<Input> {
    if ps == [] then []
    else Undropped(ps[..|ps| - 1]) + if ps[|ps| - 1].part != Dropped then [ps[|ps| - 1].input] else []
  }

  predicate AllObjects(ps: seq<Piece>) {
    forall i :: 0 <= i < |ps| && ps[i].part != Dropped ==> ps[i].input.scan.Object?
  }

  /** The symbols of all members, in the order in which they are scanned. */
  function Symbols(ps: seq<Piece>): seq<Symbol> {
    if ps == [] then []
    else
      var p := ps[|ps| - 1];
      Symbols(ps[..|ps| - 1]) + if p.part != Dropped && p.input.scan.Object? then p.input.scan.syms else []
  }

  /** The archive that a loop leaves behind: the three files one after the other. */
  function Outcome(ps: seq<Piece>): seq<Input> {
    Sent(ps, Start) + Sent(ps, Middle) + Sent(ps, End)
  }

  lemma SentNext(ps: seq<Piece>, p: Piece, part: Part)
    ensures Sent(ps + [p], part) == Sent(ps, part) + if p.part == part then [p.input] else []
  {
    assert (ps + [p])[..|ps|] == ps;
  }

  lemma SymbolsNext(ps: seq<Piece>, p: Piece)
    ensures Symbols(ps + [p]) ==
            Symbols(ps) + if p.part != Dropped && p.input.scan.Object? then p.input.scan.syms else []
    ensures AllObjects(ps + [p]) <==> AllObjects(ps) && (p.part != Dropped ==> p.input.scan.Object?)
  {
    var ps' := ps + [p];
    assert ps'[..|ps|] == ps;
    assert forall i :: 0 <= i < |ps'| ==> ps'[i] == if i < |ps| then ps[i] else p;
    assert ps'[|ps|] == p;
    if AllObjects(ps') {
      assert forall i :: 0 <= i < |ps| ==> ps[i] == ps'[i];
    }
  }

  lemma {:induction false} SentConcat(a: seq<Piece>, b: seq<Piece>, part: Part)
    ensures Sent(a + b, part) == Sent(a, part) + Sent(b, part)
    decreases |b|
  {
    if b == [] {
      assert a + b == a;
    } else {
      assert (a + b)[..|a + b| - 1] == a + b[..|b| - 1];
      SentConcat(a, b[..|b| - 1], part);
    }
  }

  /** When every piece goes to this file or nowhere, the file gets what is not dropped. */
  lemma {:induction false} AllSent(ps: seq<Piece>, part: Part)
    requires part != Dropped && forall i :: 0 <= i < |ps| ==> ps[i].part == part || ps[i].part == Dropped
    ensures Sent(ps, part) == Undropped(ps)
    ensures forall other :: other != part && other != Dropped ==> Sent(ps, other) == []
  {
    if ps != [] {
      AllSent(ps[..|ps| - 1], part);
    }
  }

  // ----- the temp files -------------------------------------------------------------------

  /**
   * The files hold what the pieces say; there is to be a symbol table when nothing was seen that is not an object, and
   * nobody has asked for none.
   */
  ghost predicate Holding(a: Archiver, ps: seq<Piece>, table: bool)
    reads a, a.astart, a.amiddle, a.aend
  {
    && AllHold(a, Sent(ps, Start), Sent(ps, Middle), Sent(ps, End))
    && a.allobj == (table && AllObjects(ps)) && (a.allobj ==> a.seen == Symbols(ps))
  }

  /** What add does to the contents and the symbols of a file: they get one more, or stay as they were. */
  ghost predicate Grown(all: seq<Member>, defs: seq<seq<Symbol>>, ap: Arfile, got: bool, m: Input, known: bool)
    reads ap`all, ap`defs
  {
    && ap.all == (if got then all + [m.member] else all)
    && (known ==> m.scan.Object? && ap.defs == if got then defs + [m.scan.syms] else defs)
  }

  lemma FileNext(all: seq<Member>, defs: seq<seq<Symbol>>, ap: Arfile, ps: seq<Piece>, p: Piece, part: Part,
                 was: bool, known: bool)
    requires AreOf(all, defs, Sent(ps, part), was) && (known ==> was)
    requires Grown(all, defs, ap, p.part == part, p.input, known)
    ensures FileHolds(ap, Sent(ps + [p], part), known)
  {
    SentNext(ps, p, part);
    if p.part == part {
      assert MembersOf(Sent(ps, part) + [p.input]) == MembersOf(Sent(ps, part)) + [p.input.member];
    }
  }

  function FileOf(a: Archiver, part: Part): Arfile {
    if part == Start then a.astart else if part == Middle then a.amiddle else a.aend
  }

  /** The scanning and the insertion of a member, file by file. */
  method AddTo(a: Archiver, part: Part, m: Input)
    requires a.Valid() && Fits(m.member)
    modifies a, a.astart, a.amiddle, a.aend
    ensures a.Valid() && a.allobj == (old(a.allobj) && m.scan.Object?)
    ensures a.allobj ==> a.seen == old(a.seen) + m.scan.syms
    ensures Grown(old(a.astart.all), old(a.astart.defs), a.astart, FileOf(a, part) == a.astart, m, a.allobj)
    ensures Grown(old(a.amiddle.all), old(a.amiddle.defs), a.amiddle, FileOf(a, part) == a.amiddle, m, a.allobj)
    ensures Grown(old(a.aend.all), old(a.aend.defs), a.aend, FileOf(a, part) == a.aend, m, a.allobj)
  {
    a.Add(FileOf(a, part), m.member, m.scan, m.before, m.between);
  }

  /** scanobj and arcopy or armove: a member goes to the end of one of the files. */
  method Send(a: Archiver, p: Piece, ghost ps: seq<Piece>, ghost table: bool)
    requires a.Valid() && Holding(a, ps, table) && Fits(p.input.member) && p.part != Dropped
    modifies a, a.astart, a.amiddle, a.aend
    ensures a.Valid() && Holding(a, ps + [p], table)
  {
    ghost var was, s, m, e := a.allobj, a.astart.all, a.amiddle.all, a.aend.all;
    ghost var ds, dm, de := a.astart.defs, a.amiddle.defs, a.aend.defs;
    AddTo(a, p.part, p.input);
    FileNext(s, ds, a.astart, ps, p, Start, was, a.allobj);
    FileNext(m, dm, a.amiddle, ps, p, Middle, was, a.allobj);
    FileNext(e, de, a.aend, ps, p, End, was, a.allobj);
    SymbolsNext(ps, p);
  }

  /** A member is skipped. */
  lemma Skipped(a: Archiver, ps: seq<Piece>, p: Piece, table: bool)
    requires Holding(a, ps, table) && p.part == Dropped
    ensures Holding(a, ps + [p], table)
  {
    SentNext(ps, p, Start);
    SentNext(ps, p, Middle);
    SentNext(ps, p, End);
    SymbolsNext(ps, p);
  }

  lemma NothingSent(a: Archiver)
    requires a.allobj && a.astart.all == a.amiddle.all == a.aend.all == [] && a.seen == []
    requires |a.astart.defs| == |a.amiddle.defs| == |a.aend.defs| == 0
    ensures Holding(a, [], true)
  {
  }

  /** install: no archive is written exactly when it would be one of objects in which a text symbol comes twice. */
  method Write(a: Archiver, date: seq<Byte>, ghost ps: seq<Piece>, ghost table: bool)
    returns (archive: Option<seq<Byte>>)
    requires a.Valid() && Holding(a, ps, table) && |date| <= 12 && SizeFits(Padded(a.symdefsize))
    ensures archive.None? <==> table && AllObjects(ps) && Repeats(Symbols(ps))
    ensures archive.Some? ==> IsArchive(archive.value, date, Outcome(ps), table && AllObjects(ps))
  {
    archive := Finish(a, date, Sent(ps, Start), Sent(ps, Middle), Sent(ps, End));
  }
}
