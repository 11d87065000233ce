// derp's three-way comparison of directory trees.

/** diffgen, diffdir, dcmp and the use of samefile in sys/src/cmd/derp.c, with file comparison left to an oracle. */
module DerpModel {

  datatype Option<T> = None | Some(value: T)

  /** A directory entry with all below it; names are numbers, in the order strcmp gives. */
  datatype Node = Node(name: int, dir: bool, stamp: int, kids: seq<Node>)

  type Maybe = Option<Node>

  /** What samefile and, for plain files, cmpfile and the checks before it say. */
  datatype Oracle = Oracle(same: (Node, Node) -> bool, equal: (Node, Node) -> bool)

  /** The verdicts, the part of mine first: added, modified, deleted or nothing, with or without a conflict. */
  datatype Verdict = AN | NA | MN | NM | DN | ND | DMConflict | MDConflict | AAConflict | MMConflict

  datatype Line = Line(path: seq<int>, verdict: Verdict)

  /** dcmp: whether two entries differ. */
  predicate Differ(o: Oracle, a: Maybe, b: Maybe) {
    if a.None? || b.None? then a != b
    else if o.same(a.value, b.value) then false
    else a.value.dir || b.value.dir || !o.equal(a.value, b.value)
  }

  predicate IsDir(a: Maybe) {
    a.Some? && a.value.dir
  }

  /** readifdir: the sorted entries of a directory, and none of anything else. */
  function Kids(a: Maybe): seq<Node> {
    if IsDir(a) then a.value.kids else []
  }

  /** Entries sorted by name, each name once. */
  predicate Sorted(s: seq<Node>) {
    forall i, j :: 0 <= i < j < |s| ==> s[i].name < s[j].name
  }

  predicate WellFormed(n: Node) {
    Sorted(n.kids) && forall k :: 0 <= k < |n.kids| ==> WellFormed(n.kids[k])
  }

  predicate Ok(a: Maybe) {
    a.Some? ==> WellFormed(a.value)
  }

  function Find(s: seq<Node>, name: int): (r: Maybe)
    ensures r.Some? ==> r.value in s && r.value.name == name
    ensures r.None? ==> forall k :: 0 <= k < |s| ==> s[k].name != name
  {
    if s == [] then None else if s[0].name == name then Some(s[0]) else Find(s[1..], name)
  }

  /** The names in two sorted lists, in order, each once. */
  function Names(l: seq<Node>, r: seq<Node>): seq<int>
    decreases |l| + |r|
  {
    if l == [] && r == [] then []
    else if r == [] || (l != [] && l[0].name < r[0].name) then [l[0].name] + Names(l[1..], r)
    else if l == [] || r[0].name < l[0].name then [r[0].name] + Names(l, r[1..])
    else [l[0].name] + Names(l[1..], r[1..])
  }

  // ----- the size of a comparison -------------------------------------------------

  function MaxHeight(s: seq<Node>): (h: nat)
    ensures forall k :: 0 <= k < |s| ==> Height(s[k]) <= h
    decreases s
  {
    if s == [] then 0
    else
      var h := Height(s[0]);
      var t := MaxHeight(s[1..]);
      if h > t then h else t
  }

  function Height(n: Node): nat
    decreases n
  {
    1 + MaxHeight(n.kids)
  }

  function Tall(a: Maybe): nat {
    if a.None? then 0 else Height(a.value)
  }

  function Tallest(l: Maybe, r: Maybe, a: Maybe): nat {
    var m := if Tall(l) > Tall(r) then Tall(l) else Tall(r);
    if m > Tall(a) then m else Tall(a)
  }

  function Sides(l: Maybe, r: Maybe): nat {
    (if l.Some? then 1 else 0) + if r.Some? then 1 else 0
  }

  lemma KidIsLower(a: Maybe, name: int)
    ensures Find(Kids(a), name).Some? ==> Tall(Find(Kids(a), name)) < Tall(a)
    ensures Tall(a) == 0 ==> Find(Kids(a), name).None?
    ensures Tall(Find(Kids(a), name)) <= Tall(a)
  {
    var f := Find(Kids(a), name);
    if f.Some? {
      var k :| 0 <= k < |Kids(a)| && Kids(a)[k] == f.value;
    }
  }

  /** The ancestor as diffdir reads it: a directory that is the same as one of the sides is not read twice. */
  function Ancestor(o: Oracle, l: Maybe, r: Maybe, a: Maybe): Maybe {
    if a.None? then None
    else if l.Some? && o.same(a.value, l.value) then l
    else if r.Some? && o.same(a.value, r.value) then r
    else a
  }

  lemma AncestorIsNoTaller(o: Oracle, l: Maybe, r: Maybe, a: Maybe)
    ensures Tallest(l, r, Ancestor(o, l, r, a)) <= Tallest(l, r, a)
    ensures Ancestor(o, l, r, a).Some? <==> a.Some?
  {
  }

  lemma KidsAreLower(l: Maybe, r: Maybe, a: Maybe, name: int)
    requires l.Some? || r.Some?
    ensures Tallest(Find(Kids(l), name), Find(Kids(r), name), Find(Kids(a), name)) < Tallest(l, r, a)
  {
    KidIsLower(l, name);
    KidIsLower(r, name);
    KidIsLower(a, name);
  }

  // ----- the comparison ---------------------------------------------------------------

  function Rank(a: Maybe): nat {
    if a.Some? then 1 else 0
  }

  /** diffgen: what is printed for an entry of mine, of yours and of the ancestor. */
  function Gen(o: Oracle, l: Maybe, r: Maybe, a: Maybe, path: seq<int>): seq<Line>
    decreases Tallest(l, r, a), Sides(l, r), Rank(a), 2, 0
  {
    if !Differ(o, l, r) then []
    else if l.None? || r.None? then
      if a.None? then [Line(path, if l.Some? then AN else NA)] + DirDiff(o, l, r, a, path)
      else if IsDir(a) && IsDir(l) then DirDiff(o, l, None, a, path) + [Line(path, ND)]
      else if IsDir(a) && IsDir(r) then DirDiff(o, None, r, a, path) + [Line(path, DN)]
      else if !Differ(o, r, a) then [Line(path, DN)] + DirDiff(o, l, r, a, path)
      else if !Differ(o, l, a) then [Line(path, ND)] + DirDiff(o, l, r, a, path)
      else if l.Some? then
        if IsDir(l) != IsDir(a) then Gen(o, l, None, None, path) else [Line(path, MDConflict)]
      else
        if IsDir(r) != IsDir(a) then Gen(o, None, r, None, path) else [Line(path, DMConflict)]
    else if a.None? then
      if IsDir(l) && IsDir(r) then DirDiff(o, l, r, a, path) else [Line(path, AAConflict)]
    else if IsDir(a) && IsDir(l) && IsDir(r) then DirDiff(o, l, r, a, path)
    else if !Differ(o, r, a) then
      if IsDir(l) != IsDir(a) then Gen(o, None, a, a, path) + Gen(o, l, None, None, path)
      else [Line(path, MN)] + DirDiff(o, l, r, a, path)
    else if !Differ(o, l, a) then
      if IsDir(r) != IsDir(a) then Gen(o, a, None, a, path) + Gen(o, None, r, None, path)
      else [Line(path, NM)] + DirDiff(o, l, r, a, path)
    else if IsDir(l) != IsDir(a) && IsDir(r) != IsDir(a) && IsDir(l) == IsDir(r) then
      if !IsDir(a) then DirDiff(o, l, r, None, path) else [Line(path, AAConflict)]
    else [Line(path, MMConflict)]
  }

  /** diffdir: every name on either side, once, with what mine, yours and the ancestor have under it. */
  function DirDiff(o: Oracle, l: Maybe, r: Maybe, a: Maybe, path: seq<int>): seq<Line>
    requires l.Some? || r.Some?
    decreases Tallest(l, r, a), Sides(l, r), Rank(a), 1, 0
  {
    AncestorIsNoTaller(o, l, r, a);
    Walk(o, l, r, Ancestor(o, l, r, a), Names(Kids(l), Kids(r)), path)
  }

  function Walk(o: Oracle, l: Maybe, r: Maybe, a: Maybe, names: seq<int>, path: seq<int>): seq<Line>
    requires l.Some? || r.Some?
    decreases Tallest(l, r, a), Sides(l, r), Rank(a), 0, |names|
  {
    if names == [] then []
    else
      var n := names[0];
      KidsAreLower(l, r, a, n);
      Gen(o, Find(Kids(l), n), Find(Kids(r), n), Find(Kids(a), n), path + [n]) + Walk(o, l, r, a, names[1..], path)
  }

  // ----- every name once ----------------------------------------------------------------

  predicate Has(s: seq<Node>, name: int) {
    exists k :: 0 <= k < |s| && s[k].name == name
  }

  lemma {:induction false} NamesAreAll(l: seq<Node>, r: seq<Node>, name: int)
    ensures name in Names(l, r) <==> Has(l, name) || Has(r, name)
    decreases |l| + |r|
  {
    HasTail(l, name);
    HasTail(r, name);
    if l == [] && r == [] {
    } else if r == [] || (l != [] && l[0].name < r[0].name) {
      NamesAreAll(l[1..], r, name);
    } else if l == [] || r[0].name < l[0].name {
      NamesAreAll(l, r[1..], name);
    } else {
      NamesAreAll(l[1..], r[1..], name);
    }
  }

  lemma HasTail(s: seq<Node>, name: int)
    ensures Has(s, name) <==> s != [] && (s[0].name == name || Has(s[1..], name))
  {
    if s != [] && Has(s[1..], name) {
      var k :| 0 <= k < |s[1..]| && s[1..][k].name == name;
      assert s[k + 1].name == name;
    }
    if Has(s, name) && s[0].name != name {
      var k :| 0 <= k < |s| && s[k].name == name;
      assert s[1..][k - 1].name == name;
    }
  }

  /** The names of two sorted listings come in increasing order, so none comes twice. */
  lemma {:induction false} NamesIncrease(l: seq<Node>, r: seq<Node>)
    requires Sorted(l) && Sorted(r)
    ensures forall i, j :: 0 <= i < j < |Names(l, r)| ==> Names(l, r)[i] < Names(l, r)[j]
    decreases |l| + |r|
  {
    if l == [] && r == [] {
    } else if r == [] || (l != [] && l[0].name < r[0].name) {
      NamesIncrease(l[1..], r);
      FirstIsLeast(l[1..], r, l[0].name);
    } else if l == [] || r[0].name < l[0].name {
      NamesIncrease(l, r[1..]);
      FirstIsLeast(l, r[1..], r[0].name);
    } else {
      NamesIncrease(l[1..], r[1..]);
      FirstIsLeast(l[1..], r[1..], l[0].name);
    }
  }

  lemma FirstIsLeast(l: seq<Node>, r: seq<Node>, name: int)
    requires (forall k :: 0 <= k < |l| ==> name < l[k].name) && forall k :: 0 <= k < |r| ==> name < r[k].name
    ensures forall i :: 0 <= i < |Names(l, r)| ==> name < Names(l, r)[i]
  {
    forall i | 0 <= i < |Names(l, r)| ensures name < Names(l, r)[i] {
      NamesAreAll(l, r, Names(l, r)[i]);
    }
  }
}
