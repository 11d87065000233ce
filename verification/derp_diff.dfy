// derp's walk over two sorted listings, with a third one followed by a cursor that never goes back.

module DerpDiff {
  import opened DerpModel

  /** Which directory diffdir takes the ancestor's entries from. */
  datatype Source = Nowhere | Mine | Yours | Own

  /** All names of s before i are below all names of t from j on. */
  predicate Past(s: seq<Node>, i: int, t: seq<Node>, j: int)
    requires 0 <= i <= |s| && 0 <= j <= |t|
  {
    forall p, q :: 0 <= p < i && j <= q < |t| ==> s[p].name < t[q].name
  }

  lemma {:induction false} FindAt(s: seq<Node>, i: nat)
    requires Sorted(s) && i < |s|
    ensures Find(s, s[i].name) == Some(s[i])
  {
    if i > 0 {
      FindAt(s[1..], i - 1);
    }
  }

  lemma {:induction false} FindNone(s: seq<Node>, name: int)
    requires forall k :: 0 <= k < |s| ==> s[k].name != name
    ensures Find(s, name) == None
  {
    if s != [] {
      FindNone(s[1..], name);
    }
  }

  /** A name that lies between what is before i and what follows is not there. */
  lemma NotBetween(s: seq<Node>, i: nat, name: int)
    requires Sorted(s) && i <= |s| && (forall p :: 0 <= p < i ==> s[p].name < name) && (i < |s| ==> name < s[i].name)
    ensures Find(s, name) == None
  {
    FindNone(s, name);
  }

  /** The search of diffdir in the ancestor's listing: the cursor moves up to the name, and past it when it is there. */
  method Seek(ads: seq<Node>, k0: nat, name: int) returns (od: Maybe, k: nat)
    requires Sorted(ads) && k0 <= |ads| && forall p :: 0 <= p < k0 ==> ads[p].name < name
    ensures od == Find(ads, name)
    ensures k0 <= k <= |ads| && forall p :: 0 <= p < k ==> ads[p].name <= name
  {
    k := k0;
    while k < |ads|
      invariant k0 <= k <= |ads| && forall p :: 0 <= p < k ==> ads[p].name < name
    {
      if ads[k].name == name {
        FindAt(ads, k);
        return Some(ads[k]), k + 1;
      } else if ads[k].name > name {
        NotBetween(ads, k, name);
        return None, k;
      }
      k := k + 1;
    }
    NotBetween(ads, k, name);
    od := None;
  }

  lemma KidsOk(a: Maybe, name: int)
    requires Ok(a)
    ensures Sorted(Kids(a)) && Ok(Find(Kids(a), name))
  {
    var f := Find(Kids(a), name);
    if f.Some? {
      var k :| 0 <= k < |Kids(a)| && Kids(a)[k] == f.value;
    }
  }

  /** The state of the merge: the cursors, and that what they have passed lies below what is to come. */
  predicate Merging(lds: seq<Node>, rds: seq<Node>, ads: seq<Node>, i: nat, j: nat, k: nat) {
    && i <= |lds| && j <= |rds| && k <= |ads| && Sorted(lds) && Sorted(rds) && Sorted(ads)
    && Past(lds, i, rds, j) && Past(rds, j, lds, i) && Past(ads, k, lds, i) && Past(ads, k, rds, j)
  }

  /** The next name of the merge. */
  function NextName(lds: seq<Node>, rds: seq<Node>, i: nat, j: nat): int
    requires i <= |lds| && j <= |rds| && (i < |lds| || j < |rds|)
  {
    if i < |lds| && (j == |rds| || lds[i].name < rds[j].name) then lds[i].name else rds[j].name
  }

  /** What lies under the next name on either side, and the names that follow it. */
  lemma NextEntries(lds: seq<Node>, rds: seq<Node>, ads: seq<Node>, i: nat, j: nat, k: nat)
    requires Merging(lds, rds, ads, i, j, k) && (i < |lds| || j < |rds|)
    ensures var n := NextName(lds, rds, i, j);
            && Find(lds, n) == (if i < |lds| && lds[i].name == n then Some(lds[i]) else None)
            && Find(rds, n) == (if j < |rds| && rds[j].name == n then Some(rds[j]) else None)
            && forall p :: 0 <= p < k ==> ads[p].name < n
  {
    var n := NextName(lds, rds, i, j);
    if i < |lds| && lds[i].name == n {
      FindAt(lds, i);
    } else {
      NotBetween(lds, i, n);
    }
    if j < |rds| && rds[j].name == n {
      FindAt(rds, j);
    } else {
      NotBetween(rds, j, n);
    }
  }

  lemma NextNames(lds: seq<Node>, rds: seq<Node>, i: nat, j: nat)
    requires i <= |lds| && j <= |rds| && (i < |lds| || j < |rds|)
    ensures var n := NextName(lds, rds, i, j);
            var i' := if i < |lds| && lds[i].name == n then i + 1 else i;
            var j' := if j < |rds| && rds[j].name == n then j + 1 else j;
            Names(lds[i..], rds[j..]) == [n] + Names(lds[i'..], rds[j'..])
  {
    assert i < |lds| ==> lds[i..][1..] == lds[i + 1..];
    assert j < |rds| ==> rds[j..][1..] == rds[j + 1..];
  }

  lemma StillMerging(lds: seq<Node>, rds: seq<Node>, ads: seq<Node>, i: nat, j: nat, k: nat, k': nat)
    requires Merging(lds, rds, ads, i, j, k) && (i < |lds| || j < |rds|) && k' <= |ads|
    requires forall p :: 0 <= p < k' ==> ads[p].name <= NextName(lds, rds, i, j)
    ensures var n := NextName(lds, rds, i, j);
            Merging(lds, rds, ads, if i < |lds| && lds[i].name == n then i + 1 else i,
                    if j < |rds| && rds[j].name == n then j + 1 else j, k')
  {
  }

  function Listing(ap: Source, lds: seq<Node>, rds: seq<Node>, ads: seq<Node>): seq<Node> {
    match ap
    case Nowhere => []
    case Mine => lds
    case Yours => rds
    case Own => ads
  }

  /** The beginning of diffdir: where the ancestor's entries come from. */
  method ChooseSource(o: Oracle, ld: Maybe, rd: Maybe, ad: Maybe) returns (ap: Source)
    ensures Kids(Ancestor(o, ld, rd, ad)) == Listing(ap, Kids(ld), Kids(rd), Kids(ad))
  {
    if ad.None? {
      return Nowhere;
    }
    if ld.Some? && o.same(ad.value, ld.value) {
      return Mine;
    }
    if rd.Some? && o.same(ad.value, rd.value) {
      return Yours;
    }
    return Own;
  }

  /** The ancestor's entry for the next name: from the listing that stands in for it, or by the cursor. */
  method FindAncestor(ap: Source, lds: seq<Node>, rds: seq<Node>, ads: seq<Node>, i: nat, j: nat, k: nat)
    returns (od: Maybe, k': nat)
    requires Merging(lds, rds, ads, i, j, k) && (i < |lds| || j < |rds|) && (!ap.Own? ==> ads == [])
    ensures var n := NextName(lds, rds, i, j);
            od == Find(Listing(ap, lds, rds, ads), n)
    ensures k <= k' <= |ads| && forall p :: 0 <= p < k' ==> ads[p].name <= NextName(lds, rds, i, j)
  {
    NextEntries(lds, rds, ads, i, j, k);
    if i < |lds| && (j == |rds| || lds[i].name < rds[j].name) {
      if ap.Mine? {
        return Some(lds[i]), k;
      }
      od, k' := Seek(ads, k, lds[i].name);
    } else {
      if ap.Yours? {
        return Some(rds[j]), k;
      }
      od, k' := Seek(ads, k, rds[j].name);
      if i < |lds| && lds[i].name == rds[j].name && ap.Mine? {
        od := Some(lds[i]);
      }
    }
  }

  lemma Regroup(a: seq<Line>, b: seq<Line>, c: seq<Line>)
    ensures (a + b) + c == a + (b + c)
  {
  }

  /** One round of diffdir: the next name on either side is compared, and the cursors move past it. */
  method DiffNext(o: Oracle, ap: Source, ld: Maybe, rd: Maybe, ghost a: Maybe, ads: seq<Node>, i: nat, j: nat, k: nat,
                  path: seq<int>, out: seq<Line>, ghost rest: seq<Line>)
    returns (out': seq<Line>, i': nat, j': nat, k': nat, ghost rest': seq<Line>)
    requires (ld.Some? || rd.Some?) && Ok(ld) && Ok(rd) && Ok(a) && (!ap.Own? ==> ads == [])
    requires Kids(a) == Listing(ap, Kids(ld), Kids(rd), ads)
    requires Merging(Kids(ld), Kids(rd), ads, i, j, k) && (i < |Kids(ld)| || j < |Kids(rd)|)
    ensures Merging(Kids(ld), Kids(rd), ads, i', j', k') && i' >= i && j' >= j && i' + j' > i + j
    requires rest == Walk(o, ld, rd, a, Names(Kids(ld)[i..], Kids(rd)[j..]), path)
    ensures rest' == Walk(o, ld, rd, a, Names(Kids(ld)[i'..], Kids(rd)[j'..]), path) && out + rest == out' + rest'
    decreases Tallest(ld, rd, a), Sides(ld, rd), Rank(a), 0, 0
  {
    var lds, rds := Kids(ld), Kids(rd);
    ghost var n := NextName(lds, rds, i, j);
    var od;
    od, k' := FindAncestor(ap, lds, rds, ads, i, j, k);
    NextEntries(lds, rds, ads, i, j, k);
    StillMerging(lds, rds, ads, i, j, k, k');
    NextNames(lds, rds, i, j);
    KidsAreLower(ld, rd, a, n);
    KidsOk(ld, n);
    KidsOk(rd, n);
    KidsOk(a, n);
    i', j' := i, j;
    var more;
    if i < |lds| && (j == |rds| || lds[i].name < rds[j].name) {
      more := DiffGen(o, Some(lds[i]), None, od, path + [lds[i].name]);
      i' := i + 1;
    } else if i < |lds| && lds[i].name == rds[j].name {
      more := DiffGen(o, Some(lds[i]), Some(rds[j]), od, path + [rds[j].name]);
      i', j' := i + 1, j + 1;
    } else {
      more := DiffGen(o, None, Some(rds[j]), od, path + [rds[j].name]);
      j' := j + 1;
    }
    rest' := Walk(o, ld, rd, a, Names(lds[i'..], rds[j'..]), path);
    assert rest == more + rest';
    out' := out + more;
    Regroup(out, more, rest');
  }

  lemma MergeStarts(ld: Maybe, rd: Maybe, ads: seq<Node>)
    requires Ok(ld) && Ok(rd) && Sorted(ads)
    ensures Merging(Kids(ld), Kids(rd), ads, 0, 0, 0)
    ensures Kids(ld)[0..] == Kids(ld) && Kids(rd)[0..] == Kids(rd)
  {
  }

  /** The loop of diffdir. */
  method DiffListings(o: Oracle, ap: Source, ld: Maybe, rd: Maybe, ghost a: Maybe, ads: seq<Node>, path: seq<int>)
    returns (out: seq<Line>)
    requires (ld.Some? || rd.Some?) && Ok(ld) && Ok(rd) && Ok(a) && (!ap.Own? ==> ads == []) && Sorted(ads)
    requires Kids(a) == Listing(ap, Kids(ld), Kids(rd), ads)
    ensures out == Walk(o, ld, rd, a, Names(Kids(ld), Kids(rd)), path)
    decreases Tallest(ld, rd, a), Sides(ld, rd), Rank(a), 0, 1
  {
    MergeStarts(ld, rd, ads);
    var n, m := |Kids(ld)|, |Kids(rd)|;
    var i, j, k := 0, 0, 0;
    ghost var all := Walk(o, ld, rd, a, Names(Kids(ld), Kids(rd)), path);
    ghost var rest := all;
    out := [];
    while i < n || j < m
      invariant Merging(Kids(ld), Kids(rd), ads, i, j, k) && out + rest == all
      invariant rest == Walk(o, ld, rd, a, Names(Kids(ld)[i..], Kids(rd)[j..]), path)
      decreases n - i + m - j
    {
      out, i, j, k, rest := DiffNext(o, ap, ld, rd, a, ads, i, j, k, path, out, rest);
    }
    assert rest == [];
  }

  /** diffdir. */
  method DiffDir(o: Oracle, ld: Maybe, rd: Maybe, ad: Maybe, path: seq<int>) returns (out: seq<Line>)
    requires (ld.Some? || rd.Some?) && Ok(ld) && Ok(rd) && Ok(ad)
    ensures out == DirDiff(o, ld, rd, ad, path)
    decreases Tallest(ld, rd, ad), Sides(ld, rd), Rank(ad), 1, 0
  {
    var ap := ChooseSource(o, ld, rd, ad);
    AncestorIsNoTaller(o, ld, rd, ad);
    if |Kids(ld)| == 0 && |Kids(rd)| == 0 {
      return [];
    }
    out := DiffListings(o, ap, ld, rd, Ancestor(o, ld, rd, ad), if ap.Own? then Kids(ad) else [], path);
  }

  /** diffgen. */
  method DiffGen(o: Oracle, ld: Maybe, rd: Maybe, ad: Maybe, path: seq<int>) returns (out: seq<Line>)
    requires Ok(ld) && Ok(rd) && Ok(ad)
    ensures out == Gen(o, ld, rd, ad, path)
    decreases Tallest(ld, rd, ad), Sides(ld, rd), Rank(ad), 2, 0
  {
    if !Differ(o, ld, rd) {
      return [];
    }
    out := [];
    if ld.None? || rd.None? {
      if ad.Some? {
        if ld.Some? && IsDir(ad) && IsDir(ld) {
          out := DiffDir(o, ld, None, ad, path);
          return out + [Line(path, ND)];
        } else if rd.Some? && IsDir(ad) && IsDir(rd) {
          out := DiffDir(o, None, rd, ad, path);
          return out + [Line(path, DN)];
        } else if !Differ(o, rd, ad) {
          out := [Line(path, DN)];
        } else if !Differ(o, ld, ad) {
          out := [Line(path, ND)];
        } else if ld.Some? {
          if IsDir(ld) != IsDir(ad) {
            out := DiffGen(o, ld, None, None, path);
            return;
          }
          return [Line(path, MDConflict)];
        } else {
          if IsDir(rd) != IsDir(ad) {
            out := DiffGen(o, None, rd, None, path);
            return;
          }
          return [Line(path, DMConflict)];
        }
      } else {
        out := [Line(path, if ld.Some? then AN else NA)];
      }
    } else {
      if ad.Some? {
        if IsDir(ad) && IsDir(ld) && IsDir(rd) {
        } else if !Differ(o, rd, ad) {
          if IsDir(ld) != IsDir(ad) {
            out := DiffGen(o, None, ad, ad, path);
            var added := DiffGen(o, ld, None, None, path);
            return out + added;
          }
          out := [Line(path, MN)];
        } else if !Differ(o, ld, ad) {
          if IsDir(rd) != IsDir(ad) {
            out := DiffGen(o, ad, None, ad, path);
            var added := DiffGen(o, None, rd, None, path);
            return out + added;
          }
          out := [Line(path, NM)];
        } else if IsDir(ld) != IsDir(ad) && IsDir(rd) != IsDir(ad) && IsDir(ld) == IsDir(rd) {
          if !IsDir(ad) {
            out := DiffDir(o, ld, rd, None, path);
            return;
          }
          return [Line(path, AAConflict)];
        } else {
          return [Line(path, MMConflict)];
        }
      } else if !IsDir(ld) || !IsDir(rd) {
        return [Line(path, AAConflict)];
      }
    }
    var below := DiffDir(o, ld, rd, ad, path);
    out := out + below;
  }
}
