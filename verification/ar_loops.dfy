// ar's m, d and r commands: which members the archive holds afterwards, and in what order.

/** mcmd, dcmd and rcmd of sys/src/cmd/ar.c, up to install. */
module ArLoops {
  import opened ArFile
  import opened ArInstall
  import opened ArCommand
  import opened ArArchive
  import opened ArParts

  predicate AllFit(ms: seq<Input>) {
    forall k :: 0 <= k < |ms| ==> Fits(ms[k].member)
  }

  /** What the loops know before member n: the arguments left, the state of bamatch, and whether the split is past. */
  predicate Knows(files: seq<Option<Arg>>, state: int, last: bool, args: seq<Option<Arg>>, ms: seq<Input>,
                  flag: Side, pivot: Name, n: nat, pitch: bool)
    requires n <= |ms|
  {
    && files == Remaining(args, ms, n, pitch) && state == StateAt(ms, flag, pivot, n)
    && last == (n > Split(ms, flag, pivot))
  }

  /** The temp files at the beginning of a command. */
  method Begin() returns (a: Archiver)
    ensures a.Valid() && Holding(a, [], true)
    ensures fresh(a) && fresh(a.astart) && fresh(a.amiddle) && fresh(a.aend)
  {
    a := new Archiver();
    NothingSent(a);
  }

  // ----- m -----------------------------------------------------------------------------

  /** Named members go to the middle; of the others those from the split on to the end, a table at the head nowhere. */
  function MovePiece(args: seq<Option<Arg>>, ms: seq<Input>, flag: Side, pivot: Name, i: nat): Piece
    requires i < |ms|
  {
    Piece(if Taken(args, ms, i, false).Some? then Middle
          else if i >= Split(ms, flag, pivot) then End
          else if i == 0 && ms[0].name == SYMDEF then Dropped
          else Start, ms[i])
  }

  function MovePieces(args: seq<Option<Arg>>, ms: seq<Input>, flag: Side, pivot: Name, n: nat): (ps: seq<Piece>)
    requires n <= |ms|
    ensures |ps| == n && forall i :: 0 <= i < n ==> ps[i] == MovePiece(args, ms, flag, pivot, i)
  {
    if n == 0 then [] else MovePieces(args, ms, flag, pivot, n - 1) + [MovePiece(args, ms, flag, pivot, n - 1)]
  }

  /** A round of the loop of mcmd once it is known whether an argument answers to the member. */
  method MoveOne(a: Archiver, m: Input, named: bool, last: bool, first: bool, ghost ps: seq<Piece>, ghost part: Part)
    requires a.Valid() && Holding(a, ps, true) && Fits(m.member)
    requires part ==
             if named then Middle else if last then End else if first && m.name == SYMDEF then Dropped else Start
    modifies a, a.astart, a.amiddle, a.aend
    ensures a.Valid() && Holding(a, ps + [Piece(part, m)], true)
  {
    if named {
      Send(a, Piece(Middle, m), ps, true);
    } else if !last && first && m.name == SYMDEF {
      Skipped(a, ps, Piece(Dropped, m), true);
    } else {
      Send(a, Piece(if last then End else Start, m), ps, true);
    }
  }

  /** A round of the loop of mcmd. */
  method MoveNext(a: Archiver, ms: seq<Input>, files: seq<Option<Arg>>, state: int, last: bool, flag: Side, pivot: Name,
                  n: nat, ghost args: seq<Option<Arg>>, ghost ps: seq<Piece>)
    returns (files': seq<Option<Arg>>, state': int, last': bool)
    requires n < |ms| && Fits(ms[n].member) && Knows(files, state, last, args, ms, flag, pivot, n, false)
    requires a.Valid() && Holding(a, ps, true)
    modifies a, a.astart, a.amiddle, a.aend
    ensures a.Valid() && Holding(a, ps + [MovePiece(args, ms, flag, pivot, n)], true)
    ensures Knows(files', state', last', args, ms, flag, pivot, n + 1, false)
  {
    var here, arg;
    here, state' := BaMatch(state, flag, ms[n].name, pivot, ms, n);
    last' := last || here;
    arg, files' := Match(files, ms[n].name);
    MoveOne(a, ms[n], arg.Some?, last', n == 0, ps, MovePiece(args, ms, flag, pivot, n).part);
  }

  /** The state of the loop of mcmd before member n. */
  ghost predicate Moving(a: Archiver, args: seq<Option<Arg>>, ms: seq<Input>, flag: Side, pivot: Name, n: nat)
    requires n <= |ms|
    reads a, a.astart, a.amiddle, a.aend
  {
    a.Valid() && Holding(a, MovePieces(args, ms, flag, pivot, n), true)
  }

  method MoveRound(a: Archiver, ms: seq<Input>, files: seq<Option<Arg>>, state: int, last: bool, flag: Side,
                   pivot: Name, n: nat, ghost args: seq<Option<Arg>>)
    returns (files': seq<Option<Arg>>, state': int, last': bool)
    requires n < |ms| && Fits(ms[n].member) && Knows(files, state, last, args, ms, flag, pivot, n, false)
    requires Moving(a, args, ms, flag, pivot, n)
    modifies a, a.astart, a.amiddle, a.aend
    ensures Moving(a, args, ms, flag, pivot, n + 1) && Knows(files', state', last', args, ms, flag, pivot, n + 1, false)
  {
    files', state', last' := MoveNext(a, ms, files, state, last, flag, pivot, n, args,
                                      MovePieces(args, ms, flag, pivot, n));
  }

  /** The loop of mcmd. */
  method MoveAll(ms: seq<Input>, args: seq<Option<Arg>>, flag: Side, pivot: Name) returns (a: Archiver)
    requires AllFit(ms)
    ensures fresh(a) && fresh(a.astart) && fresh(a.amiddle) && fresh(a.aend)
    ensures Moving(a, args, ms, flag, pivot, |ms|)
  {
    a := Begin();
    var files, state, last := args, 0, false;
    for n := 0 to |ms|
      invariant fresh(a) && fresh(a.astart) && fresh(a.amiddle) && fresh(a.aend)
      invariant Moving(a, args, ms, flag, pivot, n) && Knows(files, state, last, args, ms, flag, pivot, n, false)
    {
      files, state, last := MoveRound(a, ms, files, state, last, flag, pivot, n, args);
    }
  }

  /** mcmd: nothing happens without an argument. */
  method MCmd(ms: seq<Input>, args: seq<Option<Arg>>, flag: Side, pivot: Name) returns (a: Archiver?)
    requires AllFit(ms)
    ensures a == null <==> args == []
    ensures a != null ==> fresh(a) && a.Valid() && Holding(a, MovePieces(args, ms, flag, pivot, |ms|), true)
  {
    if |args| == 0 {
      return null;
    }
    a := MoveAll(ms, args, flag, pivot);
  }

  lemma {:induction false} EachOnce(ps: seq<Piece>)
    ensures multiset(Outcome(ps)) == multiset(Undropped(ps))
  {
    if ps != [] {
      EachOnce(ps[..|ps| - 1]);
    }
  }

  /** The pieces are the members, and only the first may be dropped. */
  predicate OnlyHeadGoes(ps: seq<Piece>, ms: seq<Input>) {
    |ps| == |ms| && forall i :: 0 <= i < |ms| ==> ps[i].input == ms[i] && (ps[i].part == Dropped ==> i == 0)
  }

  lemma LastApart(ms: seq<Input>)
    requires |ms| > 1
    ensures ms == ms[..|ms| - 1] + [ms[|ms| - 1]] && ms[1..] == ms[..|ms| - 1][1..] + [ms[|ms| - 1]]
  {
  }

  lemma {:induction false} OnlyFirst(ps: seq<Piece>, ms: seq<Input>)
    requires OnlyHeadGoes(ps, ms)
    ensures Undropped(ps) == if ps != [] && ps[0].part == Dropped then ms[1..] else ms
  {
    if |ps| > 1 {
      OnlyFirst(ps[..|ps| - 1], ms[..|ms| - 1]);
      LastApart(ms);
    } else if |ps| == 1 {
      assert Undropped(ps[..0]) == [];
    }
  }

  /** A symbol table at the head that lies before the split and that no argument answers to. */
  predicate Pitched(args: seq<Option<Arg>>, ms: seq<Input>, flag: Side, pivot: Name) {
    ms != [] && ms[0].name == SYMDEF && Taken(args, ms, 0, false).None? && Split(ms, flag, pivot) > 0
  }

  lemma MovePiecesShape(args: seq<Option<Arg>>, ms: seq<Input>, flag: Side, pivot: Name)
    ensures var ps := MovePieces(args, ms, flag, pivot, |ms|);
            OnlyHeadGoes(ps, ms) && (ps != [] && ps[0].part == Dropped <==> Pitched(args, ms, flag, pivot))
  {
    if ms != [] {
      assert MovePieces(args, ms, flag, pivot, |ms|)[0] == MovePiece(args, ms, flag, pivot, 0);
    }
  }

  /** m loses no member and doubles none, but for such a symbol table. */
  lemma NoneLost(args: seq<Option<Arg>>, ms: seq<Input>, flag: Side, pivot: Name, ps: seq<Piece>)
    requires ps == MovePieces(args, ms, flag, pivot, |ms|)
    ensures multiset(Outcome(ps)) == multiset(if Pitched(args, ms, flag, pivot) then ms[1..] else ms)
  {
    MovePiecesShape(args, ms, flag, pivot);
    EachOnce(ps);
    OnlyFirst(ps, ms);
  }

  // ----- d -----------------------------------------------------------------------------

  /** Named members go, and a symbol table at the head. */
  function DeletePiece(args: seq<Option<Arg>>, ms: seq<Input>, i: nat): Piece
    requires i < |ms|
  {
    Piece(if Taken(args, ms, i, false).Some? || (i == 0 && ms[0].name == SYMDEF) then Dropped else Start, ms[i])
  }

  function DeletePieces(args: seq<Option<Arg>>, ms: seq<Input>, n: nat): (ps: seq<Piece>)
    requires n <= |ms|
    ensures |ps| == n && forall i :: 0 <= i < n ==> ps[i] == DeletePiece(args, ms, i)
  {
    if n == 0 then [] else DeletePieces(args, ms, n - 1) + [DeletePiece(args, ms, n - 1)]
  }

  /** None of the first n members was deleted under the path of a symbol table; otherwise there will be none. */
  predicate TableWanted(args: seq<Option<Arg>>, ms: seq<Input>, n: nat)
    requires n <= |ms|
  {
    n == 0 || (TableWanted(args, ms, n - 1) && !TableNamed(Taken(args, ms, n - 1, false)))
  }

  predicate TableNamed(arg: Option<Arg>) {
    arg.Some? && arg.value.path == SYMDEF
  }

  /** The state of the loop of dcmd before member n. */
  ghost predicate Deleting(a: Archiver, args: seq<Option<Arg>>, ms: seq<Input>, n: nat)
    requires n <= |ms|
    reads a, a.astart, a.amiddle, a.aend
  {
    a.Valid() && Holding(a, DeletePieces(args, ms, n), TableWanted(args, ms, n))
  }

  /** A round of the loop of dcmd once it is known which argument answers to the member. */
  method DeleteOne(a: Archiver, m: Input, arg: Option<Arg>, first: bool, ghost ps: seq<Piece>, ghost table: bool)
    requires a.Valid() && Holding(a, ps, table) && Fits(m.member)
    modifies a, a.astart, a.amiddle, a.aend
    ensures a.Valid()
    ensures Holding(a, ps + [Piece(if arg.Some? || (first && m.name == SYMDEF) then Dropped else Start, m)],
                    table && !TableNamed(arg))
  {
    if arg.Some? {
      if arg.value.path == SYMDEF {
        a.allobj := false;
      }
      Skipped(a, ps, Piece(Dropped, m), table && !TableNamed(arg));
    } else if first && m.name == SYMDEF {
      Skipped(a, ps, Piece(Dropped, m), table);
    } else {
      Send(a, Piece(Start, m), ps, table);
    }
  }

  /** A round of the loop of dcmd. */
  method DeleteNext(a: Archiver, ms: seq<Input>, files: seq<Option<Arg>>, n: nat, ghost args: seq<Option<Arg>>,
                    ghost ps: seq<Piece>, ghost table: bool) returns (files': seq<Option<Arg>>)
    requires n < |ms| && Fits(ms[n].member) && files == Remaining(args, ms, n, false)
    requires a.Valid() && Holding(a, ps, table)
    modifies a, a.astart, a.amiddle, a.aend
    ensures a.Valid() && files' == Remaining(args, ms, n + 1, false)
    ensures Holding(a, ps + [DeletePiece(args, ms, n)], table && !TableNamed(Taken(args, ms, n, false)))
  {
    var arg;
    arg, files' := Match(files, ms[n].name);
    DeleteOne(a, ms[n], arg, n == 0, ps, table);
  }

  method DeleteRound(a: Archiver, ms: seq<Input>, files: seq<Option<Arg>>, n: nat, ghost args: seq<Option<Arg>>)
    returns (files': seq<Option<Arg>>)
    requires n < |ms| && Fits(ms[n].member) && files == Remaining(args, ms, n, false) && Deleting(a, args, ms, n)
    modifies a, a.astart, a.amiddle, a.aend
    ensures Deleting(a, args, ms, n + 1) && files' == Remaining(args, ms, n + 1, false)
  {
    files' := DeleteNext(a, ms, files, n, args, DeletePieces(args, ms, n), TableWanted(args, ms, n));
  }

  /** The loop of dcmd. */
  method DeleteAll(ms: seq<Input>, args: seq<Option<Arg>>) returns (a: Archiver)
    requires AllFit(ms)
    ensures fresh(a) && fresh(a.astart) && fresh(a.amiddle) && fresh(a.aend)
    ensures Deleting(a, args, ms, |ms|)
  {
    a := Begin();
    var files := args;
    for n := 0 to |ms|
      invariant fresh(a) && fresh(a.astart) && fresh(a.amiddle) && fresh(a.aend)
      invariant Deleting(a, args, ms, n) && files == Remaining(args, ms, n, false)
    {
      files := DeleteRound(a, ms, files, n, args);
    }
  }

  /** dcmd: nothing happens without an argument. */
  method DCmd(ms: seq<Input>, args: seq<Option<Arg>>) returns (a: Archiver?)
    requires AllFit(ms)
    ensures a == null <==> args == []
    ensures a != null ==>
              fresh(a) && a.Valid() && Holding(a, DeletePieces(args, ms, |ms|), TableWanted(args, ms, |ms|))
  {
    if |args| == 0 {
      return null;
    }
    a := DeleteAll(ms, args);
  }

  /** The arguments that have not been used up. */
  function Open(files: seq<Option<Arg>>): nat {
    if files == [] then 0 else Open(files[1..]) + if files[0].Some? then 1 else 0
  }

  lemma {:induction false} OneUsed(files: seq<Option<Arg>>, name: Name)
    ensures Open(files) == Open(Struck(files, name)) + if Place(files, name) < |files| then 1 else 0
  {
    if files != [] && !Answers(files[0], name) {
      OneUsed(files[1..], name);
      assert Struck(files, name)[1..] == Struck(files[1..], name);
    }
  }

  lemma {:induction false} DeletedCount(args: seq<Option<Arg>>, ms: seq<Input>, n: nat)
    requires n <= |ms|
    ensures |Undropped(DeletePieces(args, ms, n))| + Open(args) - Open(Remaining(args, ms, n, false)) ==
            n - if n > 0 && ms[0].name == SYMDEF && Taken(args, ms, 0, false).None? then 1 else 0
  {
    if n > 0 {
      DeletedCount(args, ms, n - 1);
      OneUsed(Remaining(args, ms, n - 1, false), ms[n - 1].name);
      var ps := DeletePieces(args, ms, n);
      assert ps[..n - 1] == DeletePieces(args, ms, n - 1);
    }
  }

  /**
   * d: the other members remain in order, and every argument that is used up has taken one member with it; a symbol
   * table at the head goes as well.
   */
  lemma OthersRemain(args: seq<Option<Arg>>, ms: seq<Input>)
    ensures var ps := DeletePieces(args, ms, |ms|);
            && Outcome(ps) == Undropped(ps)
            && |Outcome(ps)| + Open(args) - Open(Remaining(args, ms, |ms|, false)) ==
               |ms| - if ms != [] && ms[0].name == SYMDEF && Taken(args, ms, 0, false).None? then 1 else 0
  {
    AllSent(DeletePieces(args, ms, |ms|), Start);
    DeletedCount(args, ms, |ms|);
  }

  // ----- r -----------------------------------------------------------------------------

  /**
   * The member as it was, or what is on disk: a file that cannot be opened, or under u is no newer, changes nothing.
   */
  function Version(m: Input, found: Found, u: bool): Input {
    if found.Missing? || (u && found.mtime <= m.date) then m else found.input
  }

  /** What may replace member i: the file named on the command line, or without any names the file of its own name. */
  function Candidate(args: seq<Option<Arg>>, own: seq<Found>, ms: seq<Input>, i: nat): Found
    requires i < |ms| == |own|
  {
    if args == [] then own[i]
    else
      var arg := Taken(args, ms, i, true);
      if arg.Some? then arg.value.found else Missing
  }

  /** Every member stays in its place, old or replaced, but for a symbol table at the head. */
  function ReplacePiece(args: seq<Option<Arg>>, own: seq<Found>, ms: seq<Input>, u: bool, flag: Side, pivot: Name,
                        i: nat): Piece
    requires i < |ms| == |own|
  {
    if i == 0 && ms[0].name == SYMDEF then Piece(Dropped, ms[0])
    else Piece(if i >= Split(ms, flag, pivot) then End else Start, Version(ms[i], Candidate(args, own, ms, i), u))
  }

  function ReplacePieces(args: seq<Option<Arg>>, own: seq<Found>, ms: seq<Input>, u: bool, flag: Side, pivot: Name,
                         n: nat): (ps: seq<Piece>)
    requires n <= |ms| == |own|
    ensures |ps| == n && forall i :: 0 <= i < n ==> ps[i] == ReplacePiece(args, own, ms, u, flag, pivot, i)
  {
    if n == 0 then []
    else ReplacePieces(args, own, ms, u, flag, pivot, n - 1) + [ReplacePiece(args, own, ms, u, flag, pivot, n - 1)]
  }

  /** The files that no member answered to and that can be opened: they are new, and go to the end of the first file. */
  function NewPieces(files: seq<Option<Arg>>): seq<Piece> {
    if files == [] then []
    else
      var arg := files[|files| - 1];
      NewPieces(files[..|files| - 1]) +
      if arg.Some? && arg.value.found.Present? then [Piece(Start, arg.value.found.input)] else []
  }

  predicate FoundFits(found: Found) {
    found.Present? ==> Fits(found.input.member)
  }

  predicate ArgFits(arg: Option<Arg>) {
    arg.Some? ==> FoundFits(arg.value.found)
  }

  predicate ArgsFit(args: seq<Option<Arg>>) {
    forall k :: 0 <= k < |args| ==> ArgFits(args[k])
  }

  /** A round of the loop of rcmd once it is known what may replace the member. */
  method ReplaceOne(a: Archiver, m: Input, found: Found, u: bool, last: bool, ghost ps: seq<Piece>)
    requires a.Valid() && Holding(a, ps, true) && Fits(m.member) && FoundFits(found)
    modifies a, a.astart, a.amiddle, a.aend
    ensures a.Valid() && Holding(a, ps + [Piece(if last then End else Start, Version(m, found, u))], true)
  {
    var part := if last then End else Start;
    if found.Missing? {
      Send(a, Piece(part, m), ps, true);
    } else if u && found.mtime <= m.date {
      Send(a, Piece(part, m), ps, true);
    } else {
      Send(a, Piece(part, found.input), ps, true);
    }
  }

  /** The match of rcmd, which is only made when files are named. */
  method FindCandidate(files: seq<Option<Arg>>, own: Found, name: Name) returns (found: Found, files': seq<Option<Arg>>)
    requires FoundFits(own) && ArgsFit(files)
    ensures FoundFits(found) && ArgsFit(files') && files' == Struck(files, name)
    ensures var p := Place(files, name);
            found == if files == [] then own else if p < |files| then files[p].value.found else Missing
  {
    found, files' := own, files;
    if |files| != 0 {
      var arg;
      arg, files' := Match(files, name);
      found := if arg.Some? then arg.value.found else Missing;
      assert arg.Some? ==> ArgFits(arg);
    }
  }

  /** A round of the loop of rcmd, past the test for a symbol table at the head. */
  method ReplaceNext(a: Archiver, ms: seq<Input>, own: seq<Found>, files: seq<Option<Arg>>, u: bool, last: bool, n: nat,
                     ghost args: seq<Option<Arg>>, ghost ps: seq<Piece>) returns (files': seq<Option<Arg>>)
    requires n < |ms| == |own| && Fits(ms[n].member) && FoundFits(own[n]) && !(n == 0 && ms[0].name == SYMDEF)
    requires files == Remaining(args, ms, n, true) && ArgsFit(files) && a.Valid() && Holding(a, ps, true)
    modifies a, a.astart, a.amiddle, a.aend
    ensures a.Valid() && files' == Remaining(args, ms, n + 1, true) && ArgsFit(files')
    ensures Holding(a, ps + [Piece(if last then End else Start, Version(ms[n], Candidate(args, own, ms, n), u))], true)
  {
    var found;
    found, files' := FindCandidate(files, own[n], ms[n].name);
    ReplaceOne(a, ms[n], found, u, last, ps);
  }

  /** The state of the first loop of rcmd before member n. */
  ghost predicate Replacing(a: Archiver, args: seq<Option<Arg>>, own: seq<Found>, ms: seq<Input>, u: bool, flag: Side,
                            pivot: Name, n: nat)
    requires n <= |ms| == |own|
    reads a, a.astart, a.amiddle, a.aend
  {
    a.Valid() && Holding(a, ReplacePieces(args, own, ms, u, flag, pivot, n), true)
  }

  /** The test of rcmd for a symbol table at the head, and what follows it. */
  method ReplaceOrSkip(a: Archiver, ms: seq<Input>, own: seq<Found>, files: seq<Option<Arg>>, u: bool, last: bool,
                       n: nat, ghost args: seq<Option<Arg>>, ghost ps: seq<Piece>, ghost p: Piece)
    returns (files': seq<Option<Arg>>)
    requires n < |ms| == |own| && Fits(ms[n].member) && FoundFits(own[n])
    requires files == Remaining(args, ms, n, true) && ArgsFit(files) && a.Valid() && Holding(a, ps, true)
    requires p == if n == 0 && ms[0].name == SYMDEF then Piece(Dropped, ms[0])
                  else Piece(if last then End else Start, Version(ms[n], Candidate(args, own, ms, n), u))
    modifies a, a.astart, a.amiddle, a.aend
    ensures a.Valid() && files' == Remaining(args, ms, n + 1, true) && ArgsFit(files')
    ensures Holding(a, ps + [p], true)
  {
    if n == 0 && ms[n].name == SYMDEF {
      Skipped(a, ps, p, true);
      files' := files;
    } else {
      files' := ReplaceNext(a, ms, own, files, u, last, n, args, ps);
    }
  }

  /** A round of the first loop of rcmd. */
  method ReplaceRound(a: Archiver, ms: seq<Input>, own: seq<Found>, files: seq<Option<Arg>>, u: bool, state: int,
                      last: bool, flag: Side, pivot: Name, n: nat, ghost args: seq<Option<Arg>>)
    returns (files': seq<Option<Arg>>, state': int, last': bool)
    requires n < |ms| == |own| && Fits(ms[n].member) && FoundFits(own[n]) && ArgsFit(files)
    requires Knows(files, state, last, args, ms, flag, pivot, n, true)
    requires Replacing(a, args, own, ms, u, flag, pivot, n)
    modifies a, a.astart, a.amiddle, a.aend
    ensures Replacing(a, args, own, ms, u, flag, pivot, n + 1) && ArgsFit(files')
    ensures Knows(files', state', last', args, ms, flag, pivot, n + 1, true)
  {
    var here;
    here, state' := BaMatch(state, flag, ms[n].name, pivot, ms, n);
    last' := last || here;
    files' := ReplaceOrSkip(a, ms, own, files, u, last', n, args, ReplacePieces(args, own, ms, u, flag, pivot, n),
                            ReplacePiece(args, own, ms, u, flag, pivot, n));
  }

  /** The second loop of rcmd: the files that are left are added. */
  method AddNew(a: Archiver, files: seq<Option<Arg>>, ghost ps: seq<Piece>)
    requires a.Valid() && Holding(a, ps, true) && ArgsFit(files)
    modifies a, a.astart, a.amiddle, a.aend
    ensures a.Valid() && Holding(a, ps + NewPieces(files), true)
  {
    assert ps + [] == ps;
    for i := 0 to |files|
      invariant a.Valid() && Holding(a, ps + NewPieces(files[..i]), true)
    {
      NewPiecesNext(ps, files, i);
      if files[i].None? {
        continue;
      }
      var found := files[i].value.found;
      assert ArgFits(files[i]);
      if found.Present? {
        Send(a, Piece(Start, found.input), ps + NewPieces(files[..i]), true);
      }
    }
    assert files[..|files|] == files;
  }

  lemma NewPiecesNext(ps: seq<Piece>, files: seq<Option<Arg>>, i: nat)
    requires i < |files|
    ensures ps + NewPieces(files[..i + 1]) ==
            if files[i].Some? && files[i].value.found.Present?
            then ps + NewPieces(files[..i]) + [Piece(Start, files[i].value.found.input)] else ps + NewPieces(files[..i])
  {
    assert files[..i + 1][..i] == files[..i];
  }

  /** rcmd; an archive that does not exist yet has no members. */
  method RCmd(ms: seq<Input>, own: seq<Found>, args: seq<Option<Arg>>, u: bool, flag: Side, pivot: Name)
    returns (a: Archiver)
    requires AllFit(ms) && ArgsFit(args) && |own| == |ms| && forall k :: 0 <= k < |own| ==> FoundFits(own[k])
    ensures fresh(a) && fresh(a.astart) && fresh(a.amiddle) && fresh(a.aend) && a.Valid()
    ensures Holding(a, ReplacePieces(args, own, ms, u, flag, pivot, |ms|) +
                       NewPieces(Remaining(args, ms, |ms|, true)), true)
  {
    a := Begin();
    var files, state, last := args, 0, false;
    for n := 0 to |ms|
      invariant fresh(a) && fresh(a.astart) && fresh(a.amiddle) && fresh(a.aend)
      invariant Replacing(a, args, own, ms, u, flag, pivot, n) && ArgsFit(files)
      invariant Knows(files, state, last, args, ms, flag, pivot, n, true)
    {
      files, state, last := ReplaceRound(a, ms, own, files, u, state, last, flag, pivot, n, args);
    }
    AddNew(a, files, ReplacePieces(args, own, ms, u, flag, pivot, |ms|));
  }

  lemma {:induction false} NewAreStart(files: seq<Option<Arg>>)
    ensures forall i :: 0 <= i < |NewPieces(files)| ==> NewPieces(files)[i].part == Start
  {
    if files != [] {
      NewAreStart(files[..|files| - 1]);
    }
  }

  /** Pieces that go to the first file up to the split, and from there on to the last. */
  predicate Parted(ps: seq<Piece>, split: nat) {
    && split <= |ps|
    && (forall i :: 0 <= i < split ==> ps[i].part == Start || ps[i].part == Dropped)
    && forall i :: split <= i < |ps| ==> ps[i].part == End || ps[i].part == Dropped
  }

  lemma PartedOutcome(ps: seq<Piece>, split: nat, more: seq<Piece>)
    requires Parted(ps, split) && forall i :: 0 <= i < |more| ==> more[i].part == Start
    ensures Outcome(ps + more) == Undropped(ps[..split]) + Undropped(more) + Undropped(ps[split..])
  {
    var x, y := ps[..split], ps[split..];
    PartsApart(ps, split);
    assert ps == x + y;
    ThreeParts(x, y, more);
  }

  lemma PartsApart(ps: seq<Piece>, split: nat)
    requires Parted(ps, split)
    ensures split <= |ps| && AllTo(ps[..split], Start) && AllTo(ps[split..], End)
  {
  }

  /** All of these pieces go to one file, or nowhere. */
  predicate AllTo(ps: seq<Piece>, part: Part) {
    forall i :: 0 <= i < |ps| ==> ps[i].part == part || ps[i].part == Dropped
  }

  lemma ThreeParts(x: seq<Piece>, y: seq<Piece>, z: seq<Piece>)
    requires AllTo(x, Start) && AllTo(y, End) && AllTo(z, Start)
    ensures Outcome(x + y + z) == Undropped(x) + Undropped(z) + Undropped(y)
  {
    SentWhere(x, y, z, Start);
    SentWhere(x, y, z, Middle);
    SentWhere(x, y, z, End);
    NothingBetween(Undropped(x) + Undropped(z), Undropped(y));
  }

  lemma NothingBetween(a: seq<Input>, b: seq<Input>)
    ensures a + [] + b == a + b
  {
  }

  lemma SentWhere(x: seq<Piece>, y: seq<Piece>, z: seq<Piece>, part: Part)
    requires AllTo(x, Start) && AllTo(y, End) && AllTo(z, Start) && part != Dropped
    ensures Sent(x + y + z, part) ==
            if part == Start then Undropped(x) + Undropped(z) else if part == End then Undropped(y) else []
  {
    AllSent(x, Start);
    AllSent(y, End);
    AllSent(z, Start);
    SentOfThree(x, y, z, part);
  }

  /**
   * r: the members keep their places, old or replaced, and what is new stands at the split, so at the end without one.
   */
  lemma NewAtSplit(args: seq<Option<Arg>>, own: seq<Found>, ms: seq<Input>, u: bool, flag: Side, pivot: Name,
                   ps: seq<Piece>, more: seq<Piece>)
    requires |own| == |ms| && ps == ReplacePieces(args, own, ms, u, flag, pivot, |ms|)
    requires more == NewPieces(Remaining(args, ms, |ms|, true))
    ensures var split := Split(ms, flag, pivot);
            split <= |ps| && Outcome(ps + more) == Undropped(ps[..split]) + Undropped(more) + Undropped(ps[split..])
  {
    NewAreStart(Remaining(args, ms, |ms|, true));
    PartedOutcome(ps, Split(ms, flag, pivot), more);
  }

  lemma SentOfThree(x: seq<Piece>, y: seq<Piece>, z: seq<Piece>, part: Part)
    ensures Sent(x + y + z, part) == Sent(x, part) + Sent(y, part) + Sent(z, part)
  {
    SentConcat(x + y, z, part);
    SentConcat(x, y, part);
  }
}
