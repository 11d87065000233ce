// What derp's lines say: the verdict at every path, from what stands there in the three trees.

module DerpLines {
  import opened DerpModel
  import opened DerpLaws

  // ----- which lines there are at a path ---------------------------------------------------

  /** The verdicts printed for a path. */
  function LinesAt(t: seq<Line>, p: seq<int>): seq<Verdict> {
    if t == [] then [] else (if t[0].path == p then [t[0].verdict] else []) + LinesAt(t[1..], p)
  }

  lemma {:induction false} LinesAtConcat(s: seq<Line>, t: seq<Line>, p: seq<int>)
    ensures LinesAt(s + t, p) == LinesAt(s, p) + LinesAt(t, p)
    decreases |s|
  {
    if s == [] {
      assert s + t == t;
    } else {
      assert (s + t)[1..] == s[1..] + t;
      LinesAtConcat(s[1..], t, p);
    }
  }

  lemma LinesOfOne(path: seq<int>, v: Verdict, p: seq<int>)
    ensures LinesAt([Line(path, v)], p) == if path == p then [v] else []
  {
    assert [Line(path, v)][1..] == [];
  }

  /** Every line is for this path or one below it. */
  predicate Below(t: seq<Line>, path: seq<int>) {
    forall k :: 0 <= k < |t| ==> path <= t[k].path
  }

  lemma {:induction false} NoneElsewhere(t: seq<Line>, path: seq<int>, p: seq<int>)
    requires Below(t, path) && !(path <= p)
    ensures LinesAt(t, p) == []
  {
    if t != [] {
      NoneElsewhere(t[1..], path, p);
    }
  }

  lemma BelowConcat(s: seq<Line>, t: seq<Line>, path: seq<int>)
    requires Below(s, path) && Below(t, path)
    ensures Below(s + t, path)
  {
  }

  lemma BelowWithLine(path: seq<int>, d: seq<Line>)
    requires Below(d, path)
    ensures forall v :: Below([Line(path, v)], path)
    ensures forall v :: Below([Line(path, v)] + d, path)
    ensures forall v :: Below(d + [Line(path, v)], path)
  {
  }

  lemma {:induction false} GenBelow(o: Oracle, l: Maybe, r: Maybe, a: Maybe, path: seq<int>)
    ensures Below(Gen(o, l, r, a, path), path)
    decreases Tallest(l, r, a), Sides(l, r), Rank(a), 2, 0
  {
    if Differ(o, l, r) {
      DirBelow(o, l, r, a, path);
      BelowWithLine(path, DirDiff(o, l, r, a, path));
      if l.None? || r.None? {
        OneSideBelow(o, l, r, a, path);
      } else if a.Some? {
        BothSidesBelow(o, l, r, a, path);
      }
    }
  }

  lemma {:induction false} OneSideBelow(o: Oracle, l: Maybe, r: Maybe, a: Maybe, path: seq<int>)
    requires Differ(o, l, r) && (l.None? || r.None?) && Below(DirDiff(o, l, r, a, path), path)
    ensures Below(Gen(o, l, r, a, path), path)
    decreases Tallest(l, r, a), Sides(l, r), Rank(a), 1, 1
  {
    BelowWithLine(path, DirDiff(o, l, r, a, path));
    if a.Some? {
      if l.Some? {
        GenBelow(o, l, None, None, path);
      } else {
        GenBelow(o, None, r, None, path);
      }
    }
  }

  lemma {:induction false} BothSidesBelow(o: Oracle, l: Maybe, r: Maybe, a: Maybe, path: seq<int>)
    requires Differ(o, l, r) && l.Some? && r.Some? && a.Some? && Below(DirDiff(o, l, r, a, path), path)
    ensures Below(Gen(o, l, r, a, path), path)
    decreases Tallest(l, r, a), Sides(l, r), Rank(a), 1, 1
  {
    BelowWithLine(path, DirDiff(o, l, r, a, path));
    DirBelow(o, l, r, None, path);
    GenBelow(o, None, a, a, path);
    GenBelow(o, l, None, None, path);
    BelowConcat(Gen(o, None, a, a, path), Gen(o, l, None, None, path), path);
    GenBelow(o, a, None, a, path);
    GenBelow(o, None, r, None, path);
    BelowConcat(Gen(o, a, None, a, path), Gen(o, None, r, None, path), path);
  }

  lemma {:induction false} DirBelow(o: Oracle, l: Maybe, r: Maybe, a: Maybe, path: seq<int>)
    requires l.Some? || r.Some?
    ensures Below(DirDiff(o, l, r, a, path), path) && LinesAt(DirDiff(o, l, r, a, path), path) == []
    decreases Tallest(l, r, a), Sides(l, r), Rank(a), 1, 0
  {
    AncestorIsNoTaller(o, l, r, a);
    WalkBelow(o, l, r, Ancestor(o, l, r, a), Names(Kids(l), Kids(r)), path);
  }

  lemma {:induction false} WalkBelow(o: Oracle, l: Maybe, r: Maybe, a: Maybe, names: seq<int>, path: seq<int>)
    requires l.Some? || r.Some?
    ensures Below(Walk(o, l, r, a, names, path), path) && LinesAt(Walk(o, l, r, a, names, path), path) == []
    decreases Tallest(l, r, a), Sides(l, r), Rank(a), 0, |names|
  {
    if names != [] {
      var n := names[0];
      KidsAreLower(l, r, a, n);
      var t := Gen(o, Find(Kids(l), n), Find(Kids(r), n), Find(Kids(a), n), path + [n]);
      GenBelow(o, Find(Kids(l), n), Find(Kids(r), n), Find(Kids(a), n), path + [n]);
      NoneElsewhere(t, path + [n], path);
      WalkBelow(o, l, r, a, names[1..], path);
      LinesAtConcat(t, Walk(o, l, r, a, names[1..], path), path);
      assert forall k :: 0 <= k < |t| ==> path <= path + [n] <= t[k].path;
    }
  }

  predicate Distinct(names: seq<int>) {
    forall i, j :: 0 <= i < j < |names| ==> names[i] != names[j]
  }

  /** The lines at a path below come from the entries under its first name. */
  lemma {:induction false} WalkLinesAt(o: Oracle, l: Maybe, r: Maybe, a: Maybe, names: seq<int>, path: seq<int>, n: int,
                                       rest: seq<int>)
    requires (l.Some? || r.Some?) && Distinct(names)
    ensures LinesAt(Walk(o, l, r, a, names, path), path + [n] + rest) ==
            if n in names
            then LinesAt(Gen(o, Find(Kids(l), n), Find(Kids(r), n), Find(Kids(a), n), path + [n]), path + [n] + rest)
            else []
    decreases |names|
  {
    if names != [] {
      var m, p := names[0], path + [n] + rest;
      var t := Gen(o, Find(Kids(l), m), Find(Kids(r), m), Find(Kids(a), m), path + [m]);
      LinesAtConcat(t, Walk(o, l, r, a, names[1..], path), p);
      WalkLinesAt(o, l, r, a, names[1..], path, n, rest);
      if m != n {
        GenBelow(o, Find(Kids(l), m), Find(Kids(r), m), Find(Kids(a), m), path + [m]);
        assert p[|path|] == n && (path + [m])[|path|] == m;
        NoneElsewhere(t, path + [m], p);
      }
    }
  }

  // ----- what is to be said of a path -------------------------------------------------------

  /** What has become of the ancestor's entry on one side. */
  datatype Change = Same | Added | Modified | Deleted

  function ChangeOf(o: Oracle, side: Maybe, a: Maybe): Change {
    if !Differ(o, side, a) then Same else if a.None? then Added else if side.None? then Deleted else Modified
  }

  /** The verdict for changes on both sides that do not come to the same. */
  function VerdictOf(mine: Change, yours: Change): Verdict {
    match (mine, yours)
    case (Added, Same) => AN
    case (Modified, Same) => MN
    case (Deleted, Same) => DN
    case (Same, Added) => NA
    case (Same, Modified) => NM
    case (Same, Deleted) => ND
    case (Deleted, _) => DMConflict
    case (_, Deleted) => MDConflict
    case (Modified, _) => MMConflict
    case _ => AAConflict
  }

  predicate Plain(l: Maybe, r: Maybe, a: Maybe) {
    !IsDir(l) && !IsDir(r) && !IsDir(a)
  }

  predicate DirOrNone(a: Maybe) {
    a.None? || IsDir(a)
  }

  /** What is to be printed where no file has become a directory or the other way round. */
  function Due(o: Oracle, l: Maybe, r: Maybe, a: Maybe): seq<Verdict> {
    if Plain(l, r, a) then
      if Differ(o, l, r) then [VerdictOf(ChangeOf(o, l, a), ChangeOf(o, r, a))] else []
    else if l.Some? == r.Some? then []
    else if a.None? then [if l.Some? then AN else NA]
    else [if l.Some? then ND else DN]
  }

  /** The same node is of the same type and the same in all that is below it. */
  ghost predicate Truthful(o: Oracle) {
    forall x: Node, y: Node :: o.same(x, y) ==> x.dir == y.dir && x.kids == y.kids
  }

  function Lookup(t: Maybe, q: seq<int>): Maybe
    decreases |q|
  {
    if q == [] then t else Lookup(Find(Kids(t), q[0]), q[1..])
  }

  /** Along the path q no file has become a directory or the other way round. */
  predicate Agree(l: Maybe, r: Maybe, a: Maybe, q: seq<int>)
    decreases |q|
  {
    && (Plain(l, r, a) || (DirOrNone(l) && DirOrNone(r) && DirOrNone(a)))
    && (q != [] ==> Agree(Find(Kids(l), q[0]), Find(Kids(r), q[0]), Find(Kids(a), q[0]), q[1..]))
  }

  lemma {:induction false} NothingDue(o: Oracle, l: Maybe, a: Maybe, q: seq<int>)
    requires Equivalence(o)
    ensures Due(o, Lookup(l, q), Lookup(l, q), Lookup(a, q)) == []
  {
    var x := Lookup(l, q);
    assert x.Some? ==> o.same(x.value, x.value);
  }

  lemma {:induction false} NoneBelow(q: seq<int>)
    ensures Lookup(None, q) == None
    decreases |q|
  {
    if q != [] {
      NoneBelow(q[1..]);
    }
  }

  /** Equal listings lead to equal entries. */
  lemma SameBelow(l: Maybe, r: Maybe, q: seq<int>)
    requires Kids(l) == Kids(r) && q != []
    ensures Lookup(l, q) == Lookup(r, q)
  {
  }

  lemma KidsWellFormed(a: Maybe, n: int)
    requires Ok(a)
    ensures Sorted(Kids(a)) && Ok(Find(Kids(a), n))
  {
    var f := Find(Kids(a), n);
    if f.Some? {
      var k :| 0 <= k < |Kids(a)| && Kids(a)[k] == f.value;
    }
  }

  /** The verdicts at the path of the entries themselves. */
  lemma GenHere(o: Oracle, l: Maybe, r: Maybe, a: Maybe, path: seq<int>)
    requires Equivalence(o) && Agree(l, r, a, [])
    ensures LinesAt(Gen(o, l, r, a, path), path) == Due(o, l, r, a)
  {
    if Differ(o, l, r) {
      DirBelow(o, l, r, a, path);
      var d := DirDiff(o, l, r, a, path);
      forall v ensures LinesAt([Line(path, v)] + d, path) == [v] && LinesAt(d + [Line(path, v)], path) == [v] {
        LinesAtConcat([Line(path, v)], d, path);
        LinesAtConcat(d, [Line(path, v)], path);
        LinesOfOne(path, v, path);
      }
      DifferingSides(o, l, r, a);
    }
  }

  /** The verdicts at a path below: those of the entries in the three listings. */
  lemma GenLower(o: Oracle, l: Maybe, r: Maybe, a: Maybe, path: seq<int>, n: int, rest: seq<int>)
    requires Equivalence(o) && Truthful(o) && Ok(l) && Ok(r) && Agree(l, r, a, []) && Differ(o, l, r)
    ensures LinesAt(Gen(o, l, r, a, path), path + [n] + rest) ==
            LinesAt(Gen(o, Find(Kids(l), n), Find(Kids(r), n), Find(Kids(a), n), path + [n]), path + [n] + rest)
  {
    var d, p := DirDiff(o, l, r, a, path), path + [n] + rest;
    OwnLineElsewhere(o, l, r, a, path, p);
    KidsWellFormed(l, n);
    KidsWellFormed(r, n);
    NamesIncrease(Kids(l), Kids(r));
    var c := Ancestor(o, l, r, a);
    SameKids(o, l, r, a);
    WalkLinesAt(o, l, r, c, Names(Kids(l), Kids(r)), path, n, rest);
    NamesAreAll(Kids(l), Kids(r), n);
  }

  lemma SameKids(o: Oracle, l: Maybe, r: Maybe, a: Maybe)
    requires Truthful(o) && Agree(l, r, a, [])
    ensures Kids(Ancestor(o, l, r, a)) == Kids(a)
  {
  }

  /** Below the path there are the lines of diffdir only. */
  lemma OwnLineElsewhere(o: Oracle, l: Maybe, r: Maybe, a: Maybe, path: seq<int>, p: seq<int>)
    requires Equivalence(o) && Agree(l, r, a, []) && Differ(o, l, r) && p != path
    ensures LinesAt(Gen(o, l, r, a, path), p) == LinesAt(DirDiff(o, l, r, a, path), p)
  {
    var d := DirDiff(o, l, r, a, path);
    forall v
      ensures LinesAt([Line(path, v)], p) == []
      ensures LinesAt([Line(path, v)] + d, p) == LinesAt(d, p) == LinesAt(d + [Line(path, v)], p)
    {
      LinesAtConcat([Line(path, v)], d, p);
      LinesAtConcat(d, [Line(path, v)], p);
      LinesOfOne(path, v, p);
    }
    DifferingSides(o, l, r, a);
    if Plain(l, r, a) {
      assert Kids(l) == [] && Kids(r) == [];
    }
  }

  /**
   * For every path along which no file has become a directory or the other way round: the lines for it are those due
   * for the entries found along it in the three trees, and there are no others.
   */
  lemma {:induction false} LinesAreDue(o: Oracle, l: Maybe, r: Maybe, a: Maybe, path: seq<int>, q: seq<int>)
    requires Equivalence(o) && Truthful(o) && Ok(l) && Ok(r) && Ok(a) && Agree(l, r, a, q)
    ensures LinesAt(Gen(o, l, r, a, path), path + q) == Due(o, Lookup(l, q), Lookup(r, q), Lookup(a, q))
    decreases |q|
  {
    if q == [] {
      assert path + q == path;
      GenHere(o, l, r, a, path);
    } else if Differ(o, l, r) {
      var n, rest := q[0], q[1..];
      PathSplits(path, q);
      GenLower(o, l, r, a, path, n, rest);
      KidsWellFormed(l, n);
      KidsWellFormed(r, n);
      KidsWellFormed(a, n);
      LinesAreDue(o, Find(Kids(l), n), Find(Kids(r), n), Find(Kids(a), n), path + [n], rest);
    } else {
      NotDifferent(o, l, r, a, q);
    }
  }

  lemma PathSplits(path: seq<int>, q: seq<int>)
    requires q != []
    ensures path + q == path + [q[0]] + q[1..]
  {
  }

  /** Nothing is due below entries that do not differ. */
  lemma NotDifferent(o: Oracle, l: Maybe, r: Maybe, a: Maybe, q: seq<int>)
    requires Equivalence(o) && Truthful(o) && Agree(l, r, a, []) && !Differ(o, l, r) && q != []
    ensures Due(o, Lookup(l, q), Lookup(r, q), Lookup(a, q)) == []
  {
    assert Kids(l) == Kids(r);
    SameBelow(l, r, q);
    NothingDue(o, l, a, q);
  }

  lemma LineIsThere(path: seq<int>, v: Verdict, d: seq<Line>)
    ensures LinesAt([Line(path, v)], path) == [v]
    ensures LinesAt([Line(path, v)] + d, path) == [v] + LinesAt(d, path)
    ensures LinesAt(d + [Line(path, v)], path) == LinesAt(d, path) + [v]
  {
    LinesAtConcat([Line(path, v)], d, path);
    LinesAtConcat(d, [Line(path, v)], path);
    LinesOfOne(path, v, path);
  }

  lemma AddedIsThere(o: Oracle, x: Maybe, path: seq<int>)
    requires x.Some?
    ensures LinesAt(Gen(o, x, None, None, path), path) != [] && LinesAt(Gen(o, None, x, None, path), path) != []
  {
    LineIsThere(path, AN, DirDiff(o, x, None, None, path));
    LineIsThere(path, NA, DirDiff(o, None, x, None, path));
  }

  /** A difference that is not one between two directories is never passed over, whatever the types are. */
  lemma NoDifferenceIsSilent(o: Oracle, l: Maybe, r: Maybe, a: Maybe, path: seq<int>)
    requires Equivalence(o) && Differ(o, l, r) && !(IsDir(l) && IsDir(r))
    ensures LinesAt(Gen(o, l, r, a, path), path) != []
  {
    if l.None? || r.None? {
      OneSideIsHeard(o, l, r, a, path);
    } else {
      BothSidesAreHeard(o, l, r, a, path);
    }
  }

  /** Whatever verdict stands before or behind the lines of diffdir is there. */
  lemma AnyLineIsThere(path: seq<int>, d: seq<Line>)
    ensures forall v :: LinesAt([Line(path, v)], path) != []
    ensures forall v :: LinesAt([Line(path, v)] + d, path) != []
    ensures forall v :: LinesAt(d + [Line(path, v)], path) != []
  {
    forall v ensures LinesAt([Line(path, v)], path) == [v]
      ensures LinesAt([Line(path, v)] + d, path) != [] && LinesAt(d + [Line(path, v)], path) != []
    {
      LineIsThere(path, v, d);
    }
  }

  lemma OneSideIsHeard(o: Oracle, l: Maybe, r: Maybe, a: Maybe, path: seq<int>)
    requires Differ(o, l, r) && (l.None? || r.None?)
    ensures LinesAt(Gen(o, l, r, a, path), path) != []
  {
    AnyLineIsThere(path, DirDiff(o, l, r, a, path));
    if l.Some? {
      AddedIsThere(o, l, path);
    } else {
      AddedIsThere(o, r, path);
    }
  }

  lemma BothSidesAreHeard(o: Oracle, l: Maybe, r: Maybe, a: Maybe, path: seq<int>)
    requires Differ(o, l, r) && l.Some? && r.Some? && !(IsDir(l) && IsDir(r))
    ensures LinesAt(Gen(o, l, r, a, path), path) != []
  {
    var d := DirDiff(o, l, r, a, path);
    LineIsThere(path, MN, d);
    LineIsThere(path, NM, d);
    LineIsThere(path, AAConflict, d);
    LineIsThere(path, MMConflict, d);
    AddedIsThere(o, l, path);
    AddedIsThere(o, r, path);
    if a.Some? {
      LinesAtConcat(Gen(o, None, a, a, path), Gen(o, l, None, None, path), path);
      LinesAtConcat(Gen(o, a, None, a, path), Gen(o, None, r, None, path), path);
    }
  }

  predicate Alike(o: Oracle, x: Node, y: Node) {
    o.same(x, y) || o.equal(x, y)
  }

  /** Three plain files: nothing, a change on one side, or a conflict. */
  lemma ThreeFiles(o: Oracle, x: Node, y: Node, z: Node, path: seq<int>)
    requires Equivalence(o) && !x.dir && !y.dir && !z.dir
    ensures Gen(o, Some(x), Some(y), Some(z), path) ==
            if Alike(o, x, y) then []
            else if Alike(o, y, z) then [Line(path, MN)]
            else if Alike(o, x, z) then [Line(path, NM)]
            else [Line(path, MMConflict)]
  {
    var l, r, a := Some(x), Some(y), Some(z);
    assert Kids(l) == [] && Kids(r) == [];
    assert DirDiff(o, l, r, a, path) == [];
  }

  // ----- changes of type ---------------------------------------------------------------------

  /** An entry that one side alone has turned into a file or a directory is deleted there and added. */
  lemma TypeChangeIsTwoLines(o: Oracle, l: Maybe, r: Maybe, a: Maybe, path: seq<int>)
    requires Equivalence(o) && l.Some? && r.Some? && a.Some? && Differ(o, l, r)
    ensures !Differ(o, r, a) && IsDir(l) != IsDir(a) ==> LinesAt(Gen(o, l, r, a, path), path) == [DN, AN]
    ensures !Differ(o, l, a) && IsDir(r) != IsDir(a) ==> LinesAt(Gen(o, l, r, a, path), path) == [ND, NA]
  {
    DifferingSides(o, l, r, a);
    assert !Differ(o, a, a);
    OneSideDue(o, a, a, path);
    OneSideDue(o, l, None, path);
    OneSideDue(o, r, None, path);
    LinesAtConcat(Gen(o, None, a, a, path), Gen(o, l, None, None, path), path);
    LinesAtConcat(Gen(o, a, None, a, path), Gen(o, None, r, None, path), path);
  }

  /** What is printed of an entry that is on one side only, new or as it was. */
  lemma OneSideDue(o: Oracle, x: Maybe, a: Maybe, path: seq<int>)
    requires Equivalence(o) && x.Some? && (a == None || a == x)
    ensures LinesAt(Gen(o, None, x, a, path), path) == if a.None? then [NA] else [DN]
    ensures LinesAt(Gen(o, x, None, a, path), path) == if a.None? then [AN] else [ND]
  {
    assert !Differ(o, x, x);
    GenHere(o, None, x, a, path);
    GenHere(o, x, None, a, path);
  }

  predicate HasConflict(vs: seq<Verdict>) {
    exists k :: 0 <= k < |vs| && IsConflict(vs[k])
  }

  /** The sides and the ancestor all differ; a side that is gone leaves a plain file, or not both are directories. */
  predicate Clash(o: Oracle, l: Maybe, r: Maybe, a: Maybe) {
    && Differ(o, l, r) && Differ(o, l, a) && Differ(o, r, a)
    && if l.None? || r.None? then Plain(l, r, a) else !(IsDir(l) && IsDir(r))
  }

  /** A conflict is reported at a path exactly when there is one, whatever has become a file or a directory. */
  lemma ConflictExactly(o: Oracle, l: Maybe, r: Maybe, a: Maybe, path: seq<int>)
    requires Equivalence(o) && Truthful(o)
    ensures HasConflict(LinesAt(Gen(o, l, r, a, path), path)) <==> Clash(o, l, r, a)
  {
    if Agree(l, r, a, []) {
      GenHere(o, l, r, a, path);
      DueConflict(o, l, r, a);
    } else if Differ(o, l, r) {
      DifferingSides(o, l, r, a);
      if l.None? || r.None? {
        TypeChangeGone(o, l, r, a, path);
      } else {
        TypeChangeBoth(o, l, r, a, path);
      }
    }
  }

  lemma DueConflict(o: Oracle, l: Maybe, r: Maybe, a: Maybe)
    requires Equivalence(o) && Agree(l, r, a, [])
    ensures HasConflict(Due(o, l, r, a)) <==> Clash(o, l, r, a)
  {
    var t := Due(o, l, r, a);
    if Differ(o, l, r) {
      DifferingSides(o, l, r, a);
    }
    assert t != [] ==> (HasConflict(t) <==> IsConflict(t[0]));
  }

  /** One side has given the entry another type, the other has deleted it. */
  lemma TypeChangeGone(o: Oracle, l: Maybe, r: Maybe, a: Maybe, path: seq<int>)
    requires Equivalence(o) && Truthful(o) && Differ(o, l, r) && !Agree(l, r, a, []) && (l.None? || r.None?)
    ensures !HasConflict(LinesAt(Gen(o, l, r, a, path), path)) && !Clash(o, l, r, a)
  {
    if l.Some? {
      OneSideDue(o, l, None, path);
      assert Differ(o, l, a);
    } else {
      OneSideDue(o, r, None, path);
      assert Differ(o, r, a);
    }
  }

  lemma TypeChangeBoth(o: Oracle, l: Maybe, r: Maybe, a: Maybe, path: seq<int>)
    requires Equivalence(o) && Truthful(o) && Differ(o, l, r) && !Agree(l, r, a, []) && l.Some? && r.Some?
    ensures HasConflict(LinesAt(Gen(o, l, r, a, path), path)) <==> Clash(o, l, r, a)
  {
    var d := DirDiff(o, l, r, a, path);
    DirBelow(o, l, r, a, path);
    DirBelow(o, l, r, None, path);
    LineIsThere(path, MN, d);
    LineIsThere(path, NM, d);
    LineIsThere(path, AAConflict, d);
    LineIsThere(path, MMConflict, d);
    ConflictAlone(AAConflict);
    ConflictAlone(MMConflict);
    if a.Some? {
      TypeChangeIsTwoLines(o, l, r, a, path);
    }
  }

  lemma ConflictAlone(v: Verdict)
    requires IsConflict(v)
    ensures HasConflict([v])
  {
    assert IsConflict([v][0]);
  }
}
