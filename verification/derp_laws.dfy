// derp's verdicts seen from the other side, and from a side where nothing changed.

module DerpLaws {
  import opened DerpModel

  /** What the oracle says is an equivalence, and so is dcmp on what it says. */
  ghost predicate Equivalence(o: Oracle) {
    && (forall a: Node :: o.same(a, a))
    && (forall a: Node, b: Node :: o.same(a, b) ==> o.same(b, a))
    && (forall a: Maybe, b: Maybe :: Differ(o, a, b) ==> Differ(o, b, a))
    && (forall a: Maybe, b: Maybe, c: Maybe :: !Differ(o, a, b) && !Differ(o, b, c) ==> !Differ(o, a, c))
  }

  function Turned(v: Verdict): Verdict {
    match v
    case AN => NA
    case NA => AN
    case MN => NM
    case NM => MN
    case DN => ND
    case ND => DN
    case DMConflict => MDConflict
    case MDConflict => DMConflict
    case AAConflict => AAConflict
    case MMConflict => MMConflict
  }

  function TurnedLines(t: seq<Line>): seq<Line> {
    if t == [] then [] else [Line(t[0].path, Turned(t[0].verdict))] + TurnedLines(t[1..])
  }

  lemma {:induction false} TurnedConcat(s: seq<Line>, t: seq<Line>)
    ensures TurnedLines(s + t) == TurnedLines(s) + TurnedLines(t)
    decreases |s|
  {
    if s == [] {
      assert s + t == t;
    } else {
      assert (s + t)[1..] == s[1..] + t;
      TurnedConcat(s[1..], t);
    }
  }

  lemma TurnedAround(path: seq<int>, v: Verdict, d: seq<Line>)
    ensures TurnedLines([Line(path, v)]) == [Line(path, Turned(v))]
    ensures TurnedLines([Line(path, v)] + d) == [Line(path, Turned(v))] + TurnedLines(d)
    ensures TurnedLines(d + [Line(path, v)]) == TurnedLines(d) + [Line(path, Turned(v))]
  {
    assert [Line(path, v)][1..] == [];
    TurnedConcat([Line(path, v)], d);
    TurnedConcat(d, [Line(path, v)]);
  }

  lemma {:induction false} NamesCommute(l: seq<Node>, r: seq<Node>)
    ensures Names(l, r) == Names(r, l)
    decreases |l| + |r|
  {
    if l == [] && r == [] {
    } else if r == [] || (l != [] && l[0].name < r[0].name) {
      NamesCommute(l[1..], r);
    } else if l == [] || r[0].name < l[0].name {
      NamesCommute(l, r[1..]);
    } else {
      NamesCommute(l[1..], r[1..]);
    }
  }

  /** The sides are not both the same as the ancestor: diffgen would not have come here. */
  predicate OneIsNew(o: Oracle, l: Maybe, r: Maybe, a: Maybe) {
    a.Some? && l.Some? && r.Some? ==> !(o.same(a.value, l.value) && o.same(a.value, r.value))
  }

  lemma AncestorTurned(o: Oracle, l: Maybe, r: Maybe, a: Maybe)
    requires OneIsNew(o, l, r, a)
    ensures Ancestor(o, r, l, a) == Ancestor(o, l, r, a)
  {
  }

  lemma DifferingSides(o: Oracle, l: Maybe, r: Maybe, a: Maybe)
    requires Equivalence(o) && Differ(o, l, r)
    ensures OneIsNew(o, l, r, a) && Differ(o, r, l) && (Differ(o, l, a) || Differ(o, r, a))
  {
    assert !Differ(o, l, a) ==> !Differ(o, a, l);
    assert !Differ(o, r, a) ==> !Differ(o, a, r);
  }

  /** Swapping mine and yours turns every verdict round, over whole trees. */
  lemma {:induction false} GenTurned(o: Oracle, l: Maybe, r: Maybe, a: Maybe, path: seq<int>)
    requires Equivalence(o)
    ensures Gen(o, r, l, a, path) == TurnedLines(Gen(o, l, r, a, path))
    decreases Tallest(l, r, a), Sides(l, r), Rank(a), 2, 0
  {
    if !Differ(o, l, r) {
      assert !Differ(o, r, l);
    } else if l.None? || r.None? {
      OneSideTurned(o, l, r, a, path);
    } else {
      BothSidesTurned(o, l, r, a, path);
    }
  }

  lemma {:induction false} OneSideTurned(o: Oracle, l: Maybe, r: Maybe, a: Maybe, path: seq<int>)
    requires Equivalence(o) && Differ(o, l, r) && (l.None? || r.None?)
    ensures Gen(o, r, l, a, path) == TurnedLines(Gen(o, l, r, a, path))
    decreases Tallest(l, r, a), Sides(l, r), Rank(a), 1, 2
  {
    var d := DirDiff(o, l, r, a, path);
    DirTurned(o, l, r, a, path);
    if a.None? {
      TurnedAround(path, if l.Some? then AN else NA, d);
    } else if IsDir(a) && (IsDir(l) || IsDir(r)) {
      TurnedAround(path, if l.Some? then ND else DN, d);
    } else if Differ(o, l, a) && Differ(o, r, a) {
      GoneAndChanged(o, l, r, a, path);
    } else {
      GoneAndSteady(o, l, r, a, path);
    }
  }

  lemma GoneAndSteady(o: Oracle, l: Maybe, r: Maybe, a: Maybe, path: seq<int>)
    requires Equivalence(o) && Differ(o, l, r) && (l.None? || r.None?) && (l.Some? || r.Some?) && a.Some?
    requires !(IsDir(a) && (IsDir(l) || IsDir(r))) && !(Differ(o, l, a) && Differ(o, r, a))
    requires DirDiff(o, r, l, a, path) == TurnedLines(DirDiff(o, l, r, a, path))
    ensures Gen(o, r, l, a, path) == TurnedLines(Gen(o, l, r, a, path))
    decreases Tallest(l, r, a), Sides(l, r), Rank(a), 1, 1
  {
    TurnedAround(path, if l.Some? then ND else DN, DirDiff(o, l, r, a, path));
    assert Differ(o, r, l);
  }

  lemma {:induction false} GoneAndChanged(o: Oracle, l: Maybe, r: Maybe, a: Maybe, path: seq<int>)
    requires Equivalence(o) && Differ(o, l, r) && (l.None? || r.None?) && a.Some? && Differ(o, l, a) && Differ(o, r, a)
    requires !(IsDir(a) && (IsDir(l) || IsDir(r)))
    ensures Gen(o, r, l, a, path) == TurnedLines(Gen(o, l, r, a, path))
    decreases Tallest(l, r, a), Sides(l, r), Rank(a), 1, 1
  {
    if l.Some? {
      TurnedAround(path, MDConflict, []);
      GenTurned(o, l, None, None, path);
    } else {
      TurnedAround(path, DMConflict, []);
      GenTurned(o, None, r, None, path);
    }
  }

  lemma {:induction false} BothSidesTurned(o: Oracle, l: Maybe, r: Maybe, a: Maybe, path: seq<int>)
    requires Equivalence(o) && Differ(o, l, r) && l.Some? && r.Some?
    ensures Gen(o, r, l, a, path) == TurnedLines(Gen(o, l, r, a, path))
    decreases Tallest(l, r, a), Sides(l, r), Rank(a), 1, 2
  {
    var d := DirDiff(o, l, r, a, path);
    DifferingSides(o, l, r, a);
    DirTurned(o, l, r, a, path);
    if a.None? {
      TurnedAround(path, AAConflict, d);
    } else if IsDir(a) && IsDir(l) && IsDir(r) {
    } else if !Differ(o, r, a) {
      YoursUnchanged(o, l, r, a, path);
    } else if !Differ(o, l, a) {
      MineUnchanged(o, l, r, a, path);
    } else {
      BothChanged(o, l, r, a, path);
    }
  }

  lemma {:induction false} BothChanged(o: Oracle, l: Maybe, r: Maybe, a: Maybe, path: seq<int>)
    requires Equivalence(o) && Differ(o, l, r) && l.Some? && r.Some? && a.Some? && !(IsDir(a) && IsDir(l) && IsDir(r))
    requires Differ(o, r, a) && Differ(o, l, a)
    ensures Gen(o, r, l, a, path) == TurnedLines(Gen(o, l, r, a, path))
    decreases Tallest(l, r, a), Sides(l, r), Rank(a), 1, 1
  {
    DifferingSides(o, l, r, a);
    TurnedAround(path, AAConflict, []);
    TurnedAround(path, MMConflict, []);
    DirTurned(o, l, r, None, path);
  }

  lemma {:induction false} YoursUnchanged(o: Oracle, l: Maybe, r: Maybe, a: Maybe, path: seq<int>)
    requires Equivalence(o) && Differ(o, l, r) && l.Some? && r.Some? && a.Some? && !(IsDir(a) && IsDir(l) && IsDir(r))
    requires !Differ(o, r, a)
    ensures Gen(o, r, l, a, path) == TurnedLines(Gen(o, l, r, a, path))
    decreases Tallest(l, r, a), Sides(l, r), Rank(a), 1, 1
  {
    DifferingSides(o, l, r, a);
    DirTurned(o, l, r, a, path);
    if IsDir(l) != IsDir(a) {
      GenTurned(o, None, a, a, path);
      GenTurned(o, l, None, None, path);
      TurnedConcat(Gen(o, None, a, a, path), Gen(o, l, None, None, path));
    } else {
      TurnedAround(path, MN, DirDiff(o, l, r, a, path));
    }
  }

  lemma {:induction false} MineUnchanged(o: Oracle, l: Maybe, r: Maybe, a: Maybe, path: seq<int>)
    requires Equivalence(o) && Differ(o, l, r) && l.Some? && r.Some? && a.Some? && !(IsDir(a) && IsDir(l) && IsDir(r))
    requires Differ(o, r, a) && !Differ(o, l, a)
    ensures Gen(o, r, l, a, path) == TurnedLines(Gen(o, l, r, a, path))
    decreases Tallest(l, r, a), Sides(l, r), Rank(a), 1, 1
  {
    DifferingSides(o, l, r, a);
    DirTurned(o, l, r, a, path);
    if IsDir(r) != IsDir(a) {
      GenTurned(o, a, None, a, path);
      GenTurned(o, None, r, None, path);
      TurnedConcat(Gen(o, a, None, a, path), Gen(o, None, r, None, path));
    } else {
      TurnedAround(path, NM, DirDiff(o, l, r, a, path));
    }
  }

  lemma {:induction false} DirTurned(o: Oracle, l: Maybe, r: Maybe, a: Maybe, path: seq<int>)
    requires Equivalence(o) && (l.Some? || r.Some?) && OneIsNew(o, l, r, a)
    ensures DirDiff(o, r, l, a, path) == TurnedLines(DirDiff(o, l, r, a, path))
    decreases Tallest(l, r, a), Sides(l, r), Rank(a), 1, 0
  {
    AncestorIsNoTaller(o, l, r, a);
    AncestorTurned(o, l, r, a);
    NamesCommute(Kids(l), Kids(r));
    WalkTurned(o, l, r, Ancestor(o, l, r, a), Names(Kids(l), Kids(r)), path);
  }

  lemma {:induction false} WalkTurned(o: Oracle, l: Maybe, r: Maybe, a: Maybe, names: seq<int>, path: seq<int>)
    requires Equivalence(o) && (l.Some? || r.Some?)
    ensures Walk(o, r, l, a, names, path) == TurnedLines(Walk(o, l, r, a, names, path))
    decreases Tallest(l, r, a), Sides(l, r), Rank(a), 0, |names|
  {
    if names != [] {
      var n := names[0];
      KidsAreLower(l, r, a, n);
      GenTurned(o, Find(Kids(l), n), Find(Kids(r), n), Find(Kids(a), n), path + [n]);
      WalkTurned(o, l, r, a, names[1..], path);
      TurnedConcat(Gen(o, Find(Kids(l), n), Find(Kids(r), n), Find(Kids(a), n), path + [n]),
                   Walk(o, l, r, a, names[1..], path));
    }
  }

  // ----- a side where nothing changed ---------------------------------------------------

  predicate IsConflict(v: Verdict) {
    v.DMConflict? || v.MDConflict? || v.AAConflict? || v.MMConflict?
  }

  /** A verdict about a change in yours that mine has not made. */
  predicate IsYours(v: Verdict) {
    v.NA? || v.NM? || v.ND?
  }

  predicate IsMine(v: Verdict) {
    v.AN? || v.MN? || v.DN?
  }

  predicate OnlyYours(t: seq<Line>) {
    forall k :: 0 <= k < |t| ==> IsYours(t[k].verdict)
  }

  predicate OnlyMine(t: seq<Line>) {
    forall k :: 0 <= k < |t| ==> IsMine(t[k].verdict)
  }

  /** The ancestor that diffdir compares with has the entries of mine. */
  lemma SteadyAncestor(o: Oracle, l: Maybe, r: Maybe, a: Maybe)
    requires Equivalence(o) && Differ(o, l, r) && !Differ(o, l, a)
    ensures Kids(Ancestor(o, l, r, a)) == Kids(l)
  {
    if a.Some? && l.Some? {
      assert o.same(l.value, a.value) ==> o.same(a.value, l.value);
      assert r.Some? && o.same(a.value, r.value) ==> !Differ(o, a, r);
    }
  }

  /** When mine is as the ancestor was, every line tells of a change in yours: no conflict, and nothing of mine. */
  lemma {:induction false} SteadySide(o: Oracle, l: Maybe, r: Maybe, a: Maybe, path: seq<int>)
    requires Equivalence(o) && !Differ(o, l, a)
    ensures OnlyYours(Gen(o, l, r, a, path))
    decreases Tallest(l, r, a), Sides(l, r), Rank(a), 2, 0
  {
    if Differ(o, l, r) {
      SteadyAncestor(o, l, r, a);
      AncestorIsNoTaller(o, l, r, a);
      SteadyWalk(o, l, r, Ancestor(o, l, r, a), Names(Kids(l), Kids(r)), path);
      assert OnlyYours(DirDiff(o, l, r, a, path));
      if l.Some? && r.Some? {
        assert Differ(o, r, a) by {
          assert !Differ(o, r, a) ==> !Differ(o, a, r);
        }
        if IsDir(r) != IsDir(a) {
          assert !Differ(o, a, a);
          SteadySide(o, a, None, a, path);
          SteadySide(o, None, r, None, path);
        }
      }
    }
  }

  lemma {:induction false} SteadyWalk(o: Oracle, l: Maybe, r: Maybe, a: Maybe, names: seq<int>, path: seq<int>)
    requires Equivalence(o) && (l.Some? || r.Some?) && Kids(a) == Kids(l)
    ensures OnlyYours(Walk(o, l, r, a, names, path))
    decreases Tallest(l, r, a), Sides(l, r), Rank(a), 0, |names|
  {
    if names != [] {
      var n := names[0];
      KidsAreLower(l, r, a, n);
      SteadySide(o, Find(Kids(l), n), Find(Kids(r), n), Find(Kids(a), n), path + [n]);
      SteadyWalk(o, l, r, a, names[1..], path);
    }
  }

  lemma {:induction false} TurnedYours(t: seq<Line>)
    requires OnlyYours(t)
    ensures OnlyMine(TurnedLines(t))
  {
    if t != [] {
      TurnedYours(t[1..]);
    }
  }

  /** When yours is as the ancestor was, every line tells of a change in mine. */
  lemma SteadyYours(o: Oracle, l: Maybe, r: Maybe, a: Maybe, path: seq<int>)
    requires Equivalence(o) && !Differ(o, r, a)
    ensures OnlyMine(Gen(o, l, r, a, path))
  {
    SteadySide(o, r, l, a, path);
    TurnedYours(Gen(o, r, l, a, path));
    GenTurned(o, r, l, a, path);
  }
}
