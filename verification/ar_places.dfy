// Where ar's m and r put members, by names and positions, and which files r brings into the archive.

module ArPlaces {
  import opened ArFile
  import opened ArInstall
  import opened ArCommand
  import opened ArArchive
  import opened ArParts
  import opened ArLoops

  /** Member i is the first of that name. */
  predicate IsPivot(ms: seq<Input>, pivot: Name, i: nat) {
    i < |ms| && ms[i].name == pivot && forall k :: 0 <= k < i ==> ms[k].name != pivot
  }

  predicate NoPivot(ms: seq<Input>, pivot: Name) {
    forall k :: 0 <= k < |ms| ==> ms[k].name != pivot
  }

  lemma PivotIs(ms: seq<Input>, pivot: Name, i: nat)
    requires IsPivot(ms, pivot, i)
    ensures Pivot(ms, pivot) == i
  {
  }

  /** What is put at a pivot: behind it for a, in front of it for b, and otherwise at the end. */
  function Around(flag: Side, before: seq<Input>, here: Input, after: seq<Input>, put: seq<Input>): seq<Input> {
    match flag
    case After => before + [here] + put + after
    case Before => before + put + [here] + after
    case Neither => before + [here] + after + put
  }

  // ----- r ------------------------------------------------------------------------------

  lemma {:induction false} UndroppedConcat(a: seq<Piece>, b: seq<Piece>)
    ensures Undropped(a + b) == Undropped(a) + Undropped(b)
    decreases |b|
  {
    if b == [] {
      assert a + b == a;
    } else {
      assert (a + b)[..|a + b| - 1] == a + b[..|b| - 1];
      UndroppedConcat(a, b[..|b| - 1]);
    }
  }

  /** The pieces before, at and behind position i. */
  lemma UndroppedAt(ps: seq<Piece>, i: nat)
    requires i < |ps| && ps[i].part != Dropped
    ensures Undropped(ps[..i + 1]) == Undropped(ps[..i]) + [ps[i].input]
    ensures Undropped(ps[i..]) == [ps[i].input] + Undropped(ps[i + 1..])
  {
    assert ps[..i + 1][..i] == ps[..i];
    assert ps[i..] == [ps[i]] + ps[i + 1..];
    UndroppedConcat([ps[i]], ps[i + 1..]);
    assert [ps[i]][..0] == [];
  }

  /** The members after r, and among them the new ones. */
  lemma AddedAtPivot(args: seq<Option<Arg>>, own: seq<Found>, ms: seq<Input>, u: bool, flag: Side, pivot: Name, i: nat,
                     ps: seq<Piece>, more: seq<Piece>)
    requires |own| == |ms| && ps == ReplacePieces(args, own, ms, u, flag, pivot, |ms|)
    requires more == NewPieces(Remaining(args, ms, |ms|, true))
    requires IsPivot(ms, pivot, i) && !(i == 0 && pivot == SYMDEF)
    ensures Outcome(ps + more) ==
            Around(flag, Undropped(ps[..i]), ps[i].input, Undropped(ps[i + 1..]), Undropped(more))
  {
    PivotIs(ms, pivot, i);
    NewAtSplit(args, own, ms, u, flag, pivot, ps, more);
    UndroppedAt(ps, i);
    UndroppedWhole(ps, i + 1);
    var s := if flag.After? then i + 1 else if flag.Before? then i else |ms|;
    assert s == Split(ms, flag, pivot);
    Assembled(flag, Undropped(ps[..i]), ps[i].input, Undropped(ps[i + 1..]), Undropped(more),
              Undropped(ps[..s]), Undropped(ps[s..]));
  }

  lemma UndroppedWhole(ps: seq<Piece>, i: nat)
    requires i <= |ps|
    ensures Undropped(ps[..|ps|]) == Undropped(ps[..i]) + Undropped(ps[i..]) && Undropped(ps[|ps|..]) == []
  {
    assert ps[..|ps|] == ps[..i] + ps[i..];
    UndroppedConcat(ps[..i], ps[i..]);
  }

  /** What is put between two parts of the whole. */
  lemma Assembled(flag: Side, x: seq<Input>, h: Input, y: seq<Input>, put: seq<Input>, l: seq<Input>, r: seq<Input>)
    requires flag.After? ==> l == x + [h] && r == y
    requires flag.Before? ==> l == x && r == [h] + y
    requires flag.Neither? ==> l == x + [h] + y && r == []
    ensures l + put + r == Around(flag, x, h, y, put)
  {
  }

  /** Without such a member the new ones stand at the end. */
  lemma AddedAtEnd(args: seq<Option<Arg>>, own: seq<Found>, ms: seq<Input>, u: bool, flag: Side, pivot: Name,
                   ps: seq<Piece>, more: seq<Piece>)
    requires |own| == |ms| && ps == ReplacePieces(args, own, ms, u, flag, pivot, |ms|)
    requires more == NewPieces(Remaining(args, ms, |ms|, true)) && NoPivot(ms, pivot)
    ensures Outcome(ps + more) == Undropped(ps) + Undropped(more)
  {
    var p := Pivot(ms, pivot);
    NewAtSplit(args, own, ms, u, flag, pivot, ps, more);
    assert ps[..|ms|] == ps;
    UndroppedWhole(ps, 0);
    assert Undropped(ps) + Undropped(more) + [] == Undropped(ps) + Undropped(more);
  }

  // ----- m ------------------------------------------------------------------------------

  /** Which members an argument names. */
  function Flags(args: seq<Option<Arg>>, ms: seq<Input>): (named: seq<bool>)
    ensures |named| == |ms| && forall i :: 0 <= i < |ms| ==> named[i] == Taken(args, ms, i, false).Some?
  {
    seq(|ms|, i requires 0 <= i < |ms| => Taken(args, ms, i, false).Some?)
  }

  /** The members from lo up to hi that are not named. */
  function Others(ms: seq<Input>, named: seq<bool>, lo: nat, hi: nat): seq<Input>
    requires hi <= |ms| == |named|
  {
    if lo >= hi then [] else Others(ms, named, lo, hi - 1) + if named[hi - 1] then [] else [ms[hi - 1]]
  }

  function Named(ms: seq<Input>, named: seq<bool>, n: nat): seq<Input>
    requires n <= |ms| == |named|
  {
    if n == 0 then [] else Named(ms, named, n - 1) + if named[n - 1] then [ms[n - 1]] else []
  }

  lemma {:induction false} OthersConcat(ms: seq<Input>, named: seq<bool>, lo: nat, mid: nat, hi: nat)
    requires lo <= mid <= hi <= |ms| == |named|
    ensures Others(ms, named, lo, hi) == Others(ms, named, lo, mid) + Others(ms, named, mid, hi)
    decreases hi
  {
    if mid < hi {
      OthersConcat(ms, named, lo, mid, hi - 1);
    }
  }

  /** Where m begins: after a symbol table at the head that is not named. */
  function Head(ms: seq<Input>, named: seq<bool>): nat
    requires |ms| == |named|
  {
    if ms != [] && ms[0].name == SYMDEF && !named[0] then 1 else 0
  }

  /** A piece for every member: the named ones to the middle, the others on their side of s, nothing before h. */
  predicate Shared(ps: seq<Piece>, ms: seq<Input>, named: seq<bool>, h: nat, s: nat)
    requires |ms| == |named|
  {
    |ps| <= |ms| && forall i :: 0 <= i < |ps| ==>
      ps[i] == Piece(if named[i] then Middle else if i >= s then End else if i < h then Dropped else Start, ms[i])
  }

  lemma {:induction false} FirstFile(ps: seq<Piece>, ms: seq<Input>, named: seq<bool>, h: nat, s: nat)
    requires |ms| == |named| && h <= s && Shared(ps, ms, named, h, s)
    ensures Sent(ps, Start) == Others(ms, named, h, if |ps| < s then |ps| else s)
  {
    if ps != [] {
      FirstFile(ps[..|ps| - 1], ms, named, h, s);
    }
  }

  lemma {:induction false} SecondFile(ps: seq<Piece>, ms: seq<Input>, named: seq<bool>, h: nat, s: nat)
    requires |ms| == |named| && Shared(ps, ms, named, h, s)
    ensures Sent(ps, Middle) == Named(ms, named, |ps|)
  {
    if ps != [] {
      SecondFile(ps[..|ps| - 1], ms, named, h, s);
    }
  }

  lemma {:induction false} ThirdFile(ps: seq<Piece>, ms: seq<Input>, named: seq<bool>, h: nat, s: nat)
    requires |ms| == |named| && Shared(ps, ms, named, h, s)
    ensures Sent(ps, End) == Others(ms, named, s, |ps|)
  {
    if ps != [] {
      ThirdFile(ps[..|ps| - 1], ms, named, h, s);
    }
  }

  lemma MoveShared(args: seq<Option<Arg>>, ms: seq<Input>, flag: Side, pivot: Name, s: nat)
    requires Head(ms, Flags(args, ms)) <= s <= |ms| && s == Split(ms, flag, pivot)
    ensures Shared(MovePieces(args, ms, flag, pivot, |ms|), ms, Flags(args, ms), Head(ms, Flags(args, ms)), s)
  {
    var ps, named, h := MovePieces(args, ms, flag, pivot, |ms|), Flags(args, ms), Head(ms, Flags(args, ms));
    forall i | 0 <= i < |ps|
      ensures ps[i] ==
              Piece(if named[i] then Middle else if i >= s then End else if i < h then Dropped else Start, ms[i])
    {
      assert ps[i] == MovePiece(args, ms, flag, pivot, i);
    }
  }

  /** The archive after m, s being the split. */
  lemma MoveSent(args: seq<Option<Arg>>, ms: seq<Input>, named: seq<bool>, flag: Side, pivot: Name, s: nat)
    requires named == Flags(args, ms) && Head(ms, named) <= s <= |ms| && s == Split(ms, flag, pivot)
    ensures Outcome(MovePieces(args, ms, flag, pivot, |ms|)) ==
            Others(ms, named, Head(ms, named), s) + Named(ms, named, |ms|) + Others(ms, named, s, |ms|)
  {
    var ps, h := MovePieces(args, ms, flag, pivot, |ms|), Head(ms, named);
    MoveShared(args, ms, flag, pivot, s);
    FirstFile(ps, ms, named, h, s);
    SecondFile(ps, ms, named, h, s);
    ThirdFile(ps, ms, named, h, s);
  }

  /** The members after m, and among them the ones named, when the pivot is not one of these. */
  lemma MovedToPivot(args: seq<Option<Arg>>, ms: seq<Input>, named: seq<bool>, flag: Side, pivot: Name, i: nat)
    requires named == Flags(args, ms) && IsPivot(ms, pivot, i) && !named[i] && Head(ms, named) <= i
    ensures Outcome(MovePieces(args, ms, flag, pivot, |ms|)) ==
            Around(flag, Others(ms, named, Head(ms, named), i), ms[i], Others(ms, named, i + 1, |ms|),
                   Named(ms, named, |ms|))
  {
    PivotIs(ms, pivot, i);
    var s := if flag.After? then i + 1 else if flag.Before? then i else |ms|;
    var h := Head(ms, named);
    MoveSent(args, ms, named, flag, pivot, s);
    OthersAround(ms, named, h, i);
    Assembled(flag, Others(ms, named, h, i), ms[i], Others(ms, named, i + 1, |ms|), Named(ms, named, |ms|),
              Others(ms, named, h, s), Others(ms, named, s, |ms|));
  }

  lemma OthersAround(ms: seq<Input>, named: seq<bool>, h: nat, i: nat)
    requires h <= i < |ms| == |named| && !named[i]
    ensures Others(ms, named, h, i + 1) == Others(ms, named, h, i) + [ms[i]]
    ensures Others(ms, named, i, |ms|) == [ms[i]] + Others(ms, named, i + 1, |ms|)
    ensures Others(ms, named, h, |ms|) == Others(ms, named, h, i) + [ms[i]] + Others(ms, named, i + 1, |ms|)
    ensures Others(ms, named, |ms|, |ms|) == []
  {
    OthersConcat(ms, named, i, i + 1, |ms|);
    OthersConcat(ms, named, h, i + 1, |ms|);
    assert Others(ms, named, i, i + 1) == [] + [ms[i]];
  }

  /** Without such a member they stand at the end. */
  lemma MovedToEnd(args: seq<Option<Arg>>, ms: seq<Input>, named: seq<bool>, flag: Side, pivot: Name)
    requires named == Flags(args, ms) && NoPivot(ms, pivot)
    ensures Outcome(MovePieces(args, ms, flag, pivot, |ms|)) ==
            Others(ms, named, Head(ms, named), |ms|) + Named(ms, named, |ms|)
  {
    var p := Pivot(ms, pivot);
    MoveSent(args, ms, named, flag, pivot, |ms|);
    NothingBehind(Others(ms, named, Head(ms, named), |ms|) + Named(ms, named, |ms|));
  }

  lemma NothingBehind(a: seq<Input>)
    ensures a + [] == a
  {
  }

  // ----- which files r brings in -----------------------------------------------------------

  /** An argument is left, or a member that r compares has taken it. */
  lemma {:induction false} LeftOrTaken(args: seq<Option<Arg>>, ms: seq<Input>, n: nat, j: nat)
    requires n <= |ms| && j < |args| && args[j].Some?
    ensures Remaining(args, ms, n, true)[j] == args[j] ||
            exists i :: 0 <= i < n && !(i == 0 && ms[0].name == SYMDEF) && Taken(args, ms, i, true) == args[j]
  {
    if n > 0 && !(n == 1 && ms[0].name == SYMDEF) {
      LeftOrTaken(args, ms, n - 1, j);
      var left := Remaining(args, ms, n - 1, true);
      if left[j] == args[j] && Place(left, ms[n - 1].name) == j {
        assert Taken(args, ms, n - 1, true) == args[j];
      }
    }
  }

  lemma {:induction false} PieceIsIn(ps: seq<Piece>, i: nat)
    requires i < |ps| && ps[i].part != Dropped
    ensures ps[i].input in Undropped(ps)
  {
    if i < |ps| - 1 {
      PieceIsIn(ps[..|ps| - 1], i);
    }
  }

  lemma {:induction false} NewPiece(files: seq<Option<Arg>>, j: nat) returns (m: nat)
    requires j < |files| && files[j].Some? && files[j].value.found.Present?
    ensures m < |NewPieces(files)| && NewPieces(files)[m] == Piece(Start, files[j].value.found.input)
  {
    if j < |files| - 1 {
      m := NewPiece(files[..|files| - 1], j);
    } else {
      m := |NewPieces(files)| - 1;
    }
  }

  lemma {:induction false} OutcomeIsUndropped(ps: seq<Piece>, x: Input)
    ensures x in Outcome(ps) <==> x in Undropped(ps)
  {
    EachOnce(ps);
    assert x in multiset(Outcome(ps)) <==> x in multiset(Undropped(ps));
  }

  /** Under u the file is newer than every member of its name. */
  predicate Wins(arg: Arg, ms: seq<Input>, u: bool)
    requires arg.found.Present?
  {
    u ==> forall i :: 0 <= i < |ms| && ms[i].name == arg.name ==> ms[i].date < arg.found.mtime
  }

  /** After r every file named that can be opened is in the archive, under u if it is newer than what is there. */
  lemma FilesAreIn(args: seq<Option<Arg>>, own: seq<Found>, ms: seq<Input>, u: bool, flag: Side, pivot: Name, j: nat)
    requires |own| == |ms| && j < |args| && args[j].Some? && args[j].value.found.Present?
    requires Wins(args[j].value, ms, u)
    ensures var ps := ReplacePieces(args, own, ms, u, flag, pivot, |ms|) + NewPieces(Remaining(args, ms, |ms|, true));
            args[j].value.found.input in Outcome(ps)
  {
    var ps, left := ReplacePieces(args, own, ms, u, flag, pivot, |ms|), Remaining(args, ms, |ms|, true);
    var x := args[j].value.found.input;
    LeftOrTaken(args, ms, |ms|, j);
    if left[j] == args[j] {
      var m := NewPiece(left, j);
      PieceIsIn(NewPieces(left), m);
    } else {
      var i :| 0 <= i < |ms| && !(i == 0 && ms[0].name == SYMDEF) && Taken(args, ms, i, true) == args[j];
      assert ms[i].name == args[j].value.name;
      assert ps[i] == ReplacePiece(args, own, ms, u, flag, pivot, i) && ps[i].input == x;
      PieceIsIn(ps, i);
    }
    UndroppedConcat(ps, NewPieces(left));
    OutcomeIsUndropped(ps + NewPieces(left), x);
  }

  /** Why a member is kept as it is: no argument names it, the file cannot be opened, or under u it is no newer. */
  predicate Keeps(args: seq<Option<Arg>>, ms: seq<Input>, u: bool, i: nat)
    requires i < |ms|
  {
    match Taken(args, ms, i, true)
    case None => true
    case Some(arg) => arg.found.Missing? || (u && arg.found.mtime <= ms[i].date)
  }

  lemma OthersAreKept(args: seq<Option<Arg>>, own: seq<Found>, ms: seq<Input>, u: bool, flag: Side, pivot: Name, i: nat)
    requires |own| == |ms| && i < |ms| && args != [] && Keeps(args, ms, u, i)
    requires !(i == 0 && ms[0].name == SYMDEF)
    ensures var ps := ReplacePieces(args, own, ms, u, flag, pivot, |ms|) + NewPieces(Remaining(args, ms, |ms|, true));
            ms[i] in Outcome(ps)
  {
    var ps, left := ReplacePieces(args, own, ms, u, flag, pivot, |ms|), Remaining(args, ms, |ms|, true);
    assert ps[i] == ReplacePiece(args, own, ms, u, flag, pivot, i) && ps[i].input == ms[i];
    PieceIsIn(ps, i);
    UndroppedConcat(ps, NewPieces(left));
    OutcomeIsUndropped(ps + NewPieces(left), ms[i]);
  }

  // ----- d ------------------------------------------------------------------------------

  /** d leaves the members that are not named, in order, but for a symbol table at the head. */
  lemma DeletedByName(args: seq<Option<Arg>>, ms: seq<Input>, named: seq<bool>)
    requires named == Flags(args, ms)
    ensures Outcome(DeletePieces(args, ms, |ms|)) == Others(ms, named, Head(ms, named), |ms|)
  {
    OthersRemain(args, ms);
    DeleteShared(args, ms, named);
    UndroppedOthers(DeletePieces(args, ms, |ms|), ms, named, Head(ms, named));
  }

  lemma DeleteShared(args: seq<Option<Arg>>, ms: seq<Input>, named: seq<bool>)
    requires named == Flags(args, ms)
    ensures var ps := DeletePieces(args, ms, |ms|);
            forall i :: 0 <= i < |ps| ==>
                          ps[i] == Piece(if named[i] || i < Head(ms, named) then Dropped else Start, ms[i])
  {
    var ps := DeletePieces(args, ms, |ms|);
    forall i | 0 <= i < |ms|
      ensures ps[i] == Piece(if named[i] || i < Head(ms, named) then Dropped else Start, ms[i])
    {
      assert ps[i] == DeletePiece(args, ms, i);
    }
  }

  lemma {:induction false} UndroppedOthers(ps: seq<Piece>, ms: seq<Input>, named: seq<bool>, h: nat)
    requires |ps| <= |ms| == |named|
    requires forall i :: 0 <= i < |ps| ==> ps[i] == Piece(if named[i] || i < h then Dropped else Start, ms[i])
    ensures Undropped(ps) == Others(ms, named, h, |ps|)
  {
    if ps != [] {
      UndroppedOthers(ps[..|ps| - 1], ms, named, h);
    }
  }
}
