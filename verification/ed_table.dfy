// ed's table of line handles, rearranged in place.

/** reverse, move, rdelete, gdelete and the insertion step of append in sys/src/cmd/ed.c. */
module EdTable {

  /** The mark bit of a handle. */
  predicate Marked(h: int) {
    h % 2 == 1
  }

  function Unmark(h: int): int {
    h - h % 2
  }

  /** Where entry i comes from when the entries from a1 up to a2 are turned round. */
  function Mirror(a1: int, a2: int, i: int): int {
    if a1 <= i < a2 then a1 + a2 - 1 - i else i
  }

  /** r is s with the entries from a1 up to a2 turned round. */
  predicate IsTurned(s: seq<int>, a1: int, a2: int, r: seq<int>)
    requires 0 <= a1 <= a2 <= |s|
  {
    |r| == |s| && forall i :: 0 <= i < |s| ==> r[i] == s[Mirror(a1, a2, i)]
  }

  /** s with h added after entry d. */
  function Inserted(s: seq<int>, d: nat, h: int): (r: seq<int>)
    requires d < |s|
    ensures |r| == |s| + 1
  {
    s[..d + 1] + [h] + s[d + 1..]
  }

  lemma InsertedByIndex(s: seq<int>, d: nat, h: int, t: seq<int>)
    requires d < |s| && |t| == |s| + 1 && t[d + 1] == h
    requires (forall k :: 0 <= k <= d ==> t[k] == s[k]) && forall k :: d + 1 < k < |t| ==> t[k] == s[k - 1]
    ensures t == Inserted(s, d, h)
  {
  }

  /** The entries without their marked members. */
  function Kept(s: seq<int>): seq<int> {
    if s == [] then []
    else Kept(s[..|s| - 1]) + if Marked(s[|s| - 1]) then [] else [s[|s| - 1]]
  }

  /** The next entry s[n] of a table whose first n entries keep `kept`. */
  lemma {:induction false} KeptStep(s: seq<int>, n: nat, kept: seq<int>, dot: int)
    requires n < |s| && kept == Kept(s[..n])
    ensures Kept(s[..n + 1]) == if Marked(s[n]) then kept else kept + [s[n]]
    ensures DotAfter(s[..n + 1], dot) == if Marked(s[n]) && |kept| < n then |kept| else DotAfter(s[..n], dot)
  {
    assert s[..n + 1][..n] == s[..n];
  }

  /** Where the compaction of s leaves dot: at the place of the last marked entry that is not the first. */
  function DotAfter(s: seq<int>, dot: int): int {
    if s == [] then dot
    else
      var t := s[..|s| - 1];
      if Marked(s[|s| - 1]) && |Kept(t)| < |t| then |Kept(t)| else DotAfter(t, dot)
  }

  lemma {:induction false} KeptAll(s: seq<int>, dot: int)
    requires forall i :: 0 <= i < |s| ==> !Marked(s[i])
    ensures Kept(s) == s && DotAfter(s, dot) == dot
  {
    if s != [] {
      KeptAll(s[..|s| - 1], dot);
    }
  }

  lemma {:induction false} KeptLength(s: seq<int>)
    ensures |Kept(s)| <= |s|
  {
    if s != [] {
      KeptLength(s[..|s| - 1]);
    }
  }

  function ClearedAt(s: seq<int>, i: int, j: int, k: int): int
    requires 0 <= k < |s|
  {
    if i <= k < j then Unmark(s[k]) else s[k]
  }

  /** r is s with the marks of entries i..j-1 cleared. */
  predicate IsCleared(s: seq<int>, i: int, j: int, r: seq<int>) {
    |r| == |s| && forall k :: 0 <= k < |s| ==> r[k] == ClearedAt(s, i, j, k)
  }

  /** Where entry i comes from when the neighbouring ranges lo..mid-1 and mid..hi-1 are exchanged. */
  function Source(lo: int, mid: int, hi: int, i: int): int {
    if lo <= i < lo + (hi - mid) then i + (mid - lo)
    else if lo + (hi - mid) <= i < hi then i - (hi - mid)
    else i
  }

  /** r is s with the neighbouring ranges lo..mid-1 and mid..hi-1 exchanged. */
  predicate IsExchanged(s: seq<int>, lo: int, mid: int, hi: int, r: seq<int>)
    requires 0 <= lo <= mid <= hi <= |s|
  {
    |r| == |s| && forall i :: 0 <= i < |s| ==> r[i] == s[Source(lo, mid, hi, i)]
  }

  /** The three reversals of move exchange two neighbouring ranges. */
  lemma ThreeTurns(s: seq<int>, lo: int, mid: int, hi: int, s1: seq<int>, s2: seq<int>, s3: seq<int>)
    requires 0 <= lo <= mid <= hi <= |s|
    requires IsTurned(s, lo, mid, s1) && IsTurned(s1, mid, hi, s2) && IsTurned(s2, lo, hi, s3)
    ensures IsExchanged(s, lo, mid, hi, s3)
  {
    forall i | 0 <= i < |s| ensures s3[i] == s[Source(lo, mid, hi, i)] {
      var j := Mirror(lo, hi, i);
      assert s3[i] == s2[j] == s1[Mirror(mid, hi, j)];
    }
  }

  /** Where entry k comes from when entries i..j-1 go after entry t: the block and what lies between change places. */
  function MoveSource(i: int, j: int, t: int, k: int): int {
    if t < i then Source(t + 1, i, j, k) else Source(i, j, t + 1, k)
  }

  /** r is the table s, s[0] being the slot before the first line, with entries i..j-1 moved after entry t. */
  predicate IsMoved(s: seq<int>, i: int, j: int, t: int, r: seq<int>)
    requires 0 < i <= j <= |s| && (0 <= t < i || j <= t < |s|)
  {
    |r| == |s| && forall k :: 0 <= k < |s| ==> r[k] == s[MoveSource(i, j, t, k)]
  }

  /** s without n entries from i on. */
  function Without(s: seq<int>, i: int, n: int): seq<int>
    requires 0 <= i && 0 <= n && i + n <= |s|
  {
    s[..i] + s[i + n..]
  }

  /** What move does, in terms of the lines: the block follows its target, dot is its last line, the rest keep order. */
  lemma MovedBlock(s: seq<int>, i: int, j: int, t: int, r: seq<int>)
    requires 0 < i < j <= |s| && (0 <= t < i || j <= t < |s|) && IsMoved(s, i, j, t, r)
    ensures var n := j - i;
            var e := if t < i then t + n else t;
            && 0 <= e - n && e < |r| == |s|
            && r[e - n] == s[t] && r[e - n + 1..e + 1] == s[i..j] && Without(r, e - n + 1, n) == Without(s, i, n)
  {
    if t < i {
      MovedUp(s, i, j, t, r);
    } else {
      MovedDown(s, i, j, t, r);
    }
  }

  lemma MovedUp(s: seq<int>, i: int, j: int, t: int, r: seq<int>)
    requires 0 <= t < i < j <= |s| && IsMoved(s, i, j, t, r)
    ensures r[t] == s[t] && r[t + 1..t + 1 + (j - i)] == s[i..j] && Without(r, t + 1, j - i) == Without(s, i, j - i)
  {
    var n := j - i;
    assert r[..t + 1] == s[..t + 1];
    assert r[t + 1..t + 1 + n] == s[i..j];
    assert r[t + 1 + n..j] == s[t + 1..i];
    assert r[j..] == s[j..];
    assert r[t + 1 + n..] == r[t + 1 + n..j] + r[j..];
    assert s[..i] == s[..t + 1] + s[t + 1..i];
  }

  lemma MovedDown(s: seq<int>, i: int, j: int, t: int, r: seq<int>)
    requires 0 < i < j <= t < |s| && IsMoved(s, i, j, t, r)
    ensures r[t - (j - i)] == s[t] && r[t - (j - i) + 1..t + 1] == s[i..j]
    ensures Without(r, t - (j - i) + 1, j - i) == Without(s, i, j - i)
  {
    var n := j - i;
    assert r[..i] == s[..i];
    assert r[i..t - n + 1] == s[j..t + 1];
    assert r[t - n + 1..t + 1] == s[i..j];
    assert r[t + 1..] == s[t + 1..];
    assert r[..t - n + 1] == r[..i] + r[i..t - n + 1];
    assert s[j..] == s[j..t + 1] + s[t + 1..];
  }

  datatype Outcome = Done | Error

  class LineTable {
    /** zero[]: entries 1..dol are the lines of the file. */
    var tab: array<int>
    /** The lines for which the table has room. */
    var nlall: nat
    var dol: int
    var dot: int
    /** The entries in use. */
    ghost var entries: seq<int>

    /** The table has room for the lines and for what is written beyond them. */
    ghost predicate Roomy()
      reads this
    {
      0 <= dol <= nlall && 0 <= dot && tab.Length == nlall + 5
    }

    ghost predicate Valid()
      reads this, tab
    {
      Roomy() && |entries| == dol + 1 && forall k :: 0 <= k <= dol ==> entries[k] == tab[k]
    }

    constructor ()
      ensures Valid() && fresh(tab) && entries == [0] && dot == 0
    {
      tab := new int[133](_ => 0);
      nlall, dol, dot := 128, 0, 0;
      entries := [0];
      new;
    }

    /** The growth of the table in append, which moves it. */
    method Grow()
      requires Valid()
      modifies this`tab, this`nlall
      ensures Valid() && dol < nlall && entries == old(entries)
      ensures tab == old(tab) || fresh(tab)
    {
      if dol >= nlall {
        var a := new int[nlall + 512 + 5];
        forall i | 0 <= i < tab.Length {
          a[i] := tab[i];
        }
        nlall, tab := nlall + 512, a;
      }
    }

    /** The insertion in append: the entries after dot move up for tl, which becomes the current line. */
    method Insert(tl: int)
      requires Valid() && dol < nlall && dot <= dol
      modifies tab, this`dol, this`dot, this`entries
      ensures Valid() && dol == old(dol) + 1 && dot == old(dot) + 1
      ensures entries == Inserted(old(entries), old(dot), tl)
    {
      ghost var s := entries;
      dol := dol + 1;
      var a1 := dol;
      var a2 := a1 + 1;
      dot := dot + 1;
      while a1 > dot
        invariant dol == old(dol) + 1 && dot == old(dot) + 1 && dot <= a1 <= dol && a2 == a1 + 1
        invariant forall k :: 0 <= k < a1 ==> tab[k] == s[k]
        invariant forall k :: a1 < k <= dol ==> tab[k] == s[k - 1]
      {
        a2, a1 := a2 - 1, a1 - 1;
        tab[a2] := tab[a1];
      }
      tab[dot] := tl;
      entries := tab[..dol + 1];
      InsertedByIndex(s, dot - 1, tl, entries);
    }

    /** reverse: turns the entries from a1 up to a2 round. */
    method Reverse(a1: int, a2: int)
      requires Valid() && 0 < a1 <= a2 <= dol + 1
      modifies tab, this`entries
      ensures Valid() && IsTurned(old(entries), a1, a2, entries)
    {
      ghost var s := entries;
      var lo, hi := a1, a2;
      while true
        invariant a1 <= lo <= hi <= a2 && lo - a1 == a2 - hi
        invariant forall i :: 0 <= i < a1 || lo <= i < hi || a2 <= i <= dol ==> tab[i] == s[i]
        invariant forall i :: a1 <= i < lo || hi <= i < a2 ==> tab[i] == s[a1 + a2 - 1 - i]
        decreases hi - lo
      {
        hi := hi - 1;
        var t := tab[hi];
        if hi <= lo {
          assert hi == lo || hi == lo - 1;
          break;
        }
        assert a1 + a2 - 1 - lo == hi && a1 + a2 - 1 - hi == lo;
        tab[hi] := tab[lo];
        tab[lo] := t;
        lo := lo + 1;
      }
      entries := tab[..dol + 1];
    }

    /** The three reversals of move, which exchange two neighbouring ranges. */
    method Exchange(lo: int, mid: int, hi: int)
      requires Valid() && 0 < lo <= mid <= hi <= dol + 1
      modifies tab, this`entries
      ensures Valid() && IsExchanged(old(entries), lo, mid, hi, entries)
    {
      ghost var s := entries;
      Reverse(lo, mid);
      ghost var s1 := entries;
      Reverse(mid, hi);
      ghost var s2 := entries;
      Reverse(lo, hi);
      ThreeTurns(s, lo, mid, hi, s1, s2, entries);
    }

    /** The first loop of move: the marks of the addressed lines are cleared. */
    method ClearMarks(addr1: int, addr2: int)
      requires Valid() && 0 < addr1 <= addr2 <= dol
      modifies tab, this`entries
      ensures Valid() && IsCleared(old(entries), addr1, addr2 + 1, entries)
    {
      ghost var s := entries;
      for i := addr1 to addr2 + 1
        invariant forall k :: 0 <= k < addr1 || i <= k <= dol ==> tab[k] == s[k]
        invariant forall k :: addr1 <= k < i ==> tab[k] == Unmark(s[k])
      {
        tab[i] := Unmark(tab[i]);
      }
      entries := tab[..dol + 1];
    }

    /** The part of move common to m and t: entries ad1..ad2-1 go directly after entry adt, dot to the last of them. */
    method Place(ad1: int, ad2: int, adt: int) returns (outcome: Outcome)
      requires Valid() && 0 < ad1 < ad2 <= dol + 1 && 0 <= adt <= dol
      modifies tab, this`dot, this`entries
      ensures Valid() && (outcome.Error? <==> ad1 <= adt < ad2)
      ensures outcome.Error? ==> entries == old(entries) && dot == old(dot)
      ensures outcome.Done? ==> IsMoved(old(entries), ad1, ad2, adt, entries)
      ensures outcome.Done? ==> dot == if adt < ad1 then adt + (ad2 - ad1) else adt
    {
      outcome := Done;
      if adt < ad1 {
        dot := adt + (ad2 - ad1);
        if adt + 1 == ad1 {
          return;
        }
        Exchange(adt + 1, ad1, ad2);
      } else if adt >= ad2 {
        dot := adt;
        Exchange(ad1, ad2, adt + 1);
      } else {
        outcome := Error;
      }
    }

    /** The m command: lines addr1..addr2 lose their marks and are moved after line adt, unless that is one of them. */
    method Move(addr1: int, addr2: int, adt: int) returns (outcome: Outcome, ghost cleared: seq<int>)
      requires Valid() && 0 < addr1 <= addr2 <= dol && 0 <= adt <= dol
      modifies tab, this`dot, this`entries
      ensures Valid() && (outcome.Error? <==> addr1 <= adt <= addr2)
      ensures IsCleared(old(entries), addr1, addr2 + 1, cleared)
      ensures outcome.Error? ==> entries == cleared && dot == old(dot)
      ensures outcome.Done? ==> IsMoved(cleared, addr1, addr2 + 1, adt, entries)
      ensures outcome.Done? ==> dot == if adt < addr1 then adt + (addr2 + 1 - addr1) else adt
    {
      ClearMarks(addr1, addr2);
      cleared := entries;
      outcome := Place(addr1, addr2 + 1, adt);
    }

    /** The copying loop of rdelete: what follows a2 comes down to a1. */
    method ShiftDown(a1: int, a2: int, a3: int)
      requires Roomy() && 0 < a1 < a2 <= a3 + 1 <= dol + 1
      modifies tab
      ensures forall k :: 0 <= k < a1 ==> tab[k] == old(tab[k])
      ensures forall k :: a1 <= k < a1 + (a3 + 1 - a2) ==> tab[k] == old(tab[k + (a2 - a1)])
    {
      ghost var was := tab[..];
      var to, from := a1, a2;
      tab[to] := tab[from];
      to, from := to + 1, from + 1;
      while from <= a3
        invariant a1 < to && from - to == a2 - a1 && from <= a3 + 2
        invariant forall k :: 0 <= k < a1 || to <= k < tab.Length ==> tab[k] == was[k]
        invariant forall k :: a1 <= k < to ==> tab[k] == was[k + (a2 - a1)]
      {
        tab[to] := tab[from];
        to, from := to + 1, from + 1;
      }
    }

    /** rdelete: lines ad1..ad2 are dropped. */
    method RDelete(ad1: int, ad2: int)
      requires Valid() && 0 < ad1 <= ad2 <= dol
      modifies tab, this`dot, this`dol, this`entries
      ensures Valid() && entries == Without(old(entries), ad1, ad2 + 1 - ad1)
      ensures dot == if ad1 > dol then dol else ad1
    {
      ghost var s := entries;
      ShiftDown(ad1, ad2 + 1, dol);
      dol := dol - (ad2 + 1 - ad1);
      dot := if ad1 > dol then dol else ad1;
      entries := Without(s, ad1, ad2 + 1 - ad1);
    }

    /** The first loop of gdelete: the first marked entry, or none. */
    method FirstMarked() returns (a1: int)
      requires Valid()
      ensures a1 <= dol
      ensures forall k :: 0 <= k <= dol && (k < a1 || a1 < 0) ==> !Marked(tab[k])
      ensures 0 <= a1 ==> Marked(tab[a1])
    {
      a1 := 0;
      while !Marked(tab[a1])
        invariant 0 <= a1 <= dol && forall k :: 0 <= k < a1 ==> !Marked(tab[k])
        decreases dol - a1
      {
        if a1 >= dol {
          return -1;
        }
        a1 := a1 + 1;
      }
    }

    /** The state of the second loop of gdelete: of the entries before a2, those to be kept stand below `end`. */
    ghost predicate Compacting(s: seq<int>, end: int, a2: int, dot0: int)
      reads this, tab
    {
      && Roomy() && |s| == dol + 1 && 0 <= end < a2 <= dol + 1
      && |Kept(s[..a2])| == end && dot == DotAfter(s[..a2], dot0)
      && (forall k :: 0 <= k < end ==> tab[k] == Kept(s[..a2])[k])
      && forall k :: a2 <= k <= dol ==> tab[k] == s[k]
    }

    /** A round of that loop: an unmarked entry comes down. */
    method CompactNext(end: int, a2: int, ghost s: seq<int>, ghost dot0: int) returns (end': int)
      requires Compacting(s, end, a2, dot0) && a2 <= dol
      modifies tab, this`dot
      ensures Compacting(s, end', a2 + 1, dot0)
    {
      KeptStep(s, a2, Kept(s[..a2]), dot0);
      end' := end;
      if Marked(tab[a2]) {
        dot := end;
      } else {
        tab[end] := tab[a2];
        end' := end + 1;
      }
    }

    /** The second loop of gdelete: unmarked entries after a1 come down over the marked ones. */
    method Compact(a1: int, ghost s: seq<int>) returns (end: int)
      requires Roomy() && 0 <= a1 <= dol && |s| == dol + 1
      requires Kept(s[..a1 + 1]) == s[..a1] && DotAfter(s[..a1 + 1], dot) == dot
      requires forall k :: 0 <= k <= dol ==> tab[k] == s[k]
      modifies tab, this`dot
      ensures Roomy() && 0 <= end <= dol + 1 && |Kept(s)| == end
      ensures forall k :: 0 <= k < end ==> tab[k] == Kept(s)[k]
      ensures dot == DotAfter(s, old(dot))
    {
      end := a1;
      var a2 := a1 + 1;
      while a2 <= dol
        invariant dol == old(dol) && Compacting(s, end, a2, old(dot))
      {
        end := CompactNext(end, a2, s, old(dot));
        a2 := a2 + 1;
      }
      assert s[..a2] == s;
    }

    /**
     * gdelete: the unmarked entries remain, in order, and dot is where the last line to go stood, or the last left.
     * When no entry remains at all, not even the slot before the first line, the table ends before its beginning.
     */
    method GDelete()
      requires Valid()
      modifies tab, this`dot, this`dol, this`entries
      ensures entries == Kept(old(entries)) && |entries| == dol + 1 && (Valid() <==> entries != [])
      ensures var d := DotAfter(old(entries), old(dot));
              dot == if d > dol && dol < old(dol) then dol else d
      ensures old(dot) <= old(dol) ==> dot <= dol
    {
      ghost var s := entries;
      var a1 := FirstMarked();
      if a1 < 0 {
        KeptAll(s, dot);
        return;
      }
      KeptAll(s[..a1], dot);
      KeptStep(s, a1, s[..a1], dot);
      var end := Compact(a1, s);
      KeptShort(s, a1);
      dol := end - 1;
      entries := Kept(s);
      if dot > dol {
        dot := dol;
      }
    }

    /** The marking loop of global. */
    method MarkLines(addr1: int, addr2: int, wanted: bool, hits: seq<bool>)
      requires Valid() && |hits| == dol + 1
      modifies tab, this`entries
      ensures Valid() && AreMarked(old(entries), addr1, addr2, wanted, hits, entries)
    {
      ghost var s := entries;
      for i := 0 to dol + 1
        invariant forall k :: i <= k <= dol ==> tab[k] == s[k]
        invariant forall k :: 0 <= k < i ==>
                    tab[k] == Unmark(s[k]) + if Selected(k, addr1, addr2, wanted, hits) then 1 else 0
      {
        tab[i] := Unmark(tab[i]);
        if addr1 <= i <= addr2 {
          var found := i != 0 && hits[i];
          if found == wanted {
            tab[i] := tab[i] + 1;
          }
        }
      }
      entries := tab[..dol + 1];
    }

    /**
     * g/re/d and v/re/d: the lines that are not selected remain, in order, unless the file is empty and the command is
     * v; then the table ends before its beginning, and dot is there.
     */
    method GlobalDelete(addr1: int, addr2: int, wanted: bool, hits: seq<bool>)
      requires Valid() && |hits| == dol + 1 && 0 <= addr1 <= addr2 <= dol && (dol > 0 ==> addr1 > 0)
      modifies tab, this`dot, this`dol, this`entries
      ensures (Valid() &&
               entries == [Unmark(old(entries)[0])] + Spared(old(entries), |hits|, addr1, addr2, wanted, hits))
              <==> !(old(dol) == 0 && !wanted)
      ensures old(dol) == 0 && !wanted ==> dol == dot == -1
      ensures old(dot) <= old(dol) ==> dot <= dol
    {
      ghost var s, z := entries, dol;
      MarkLines(addr1, addr2, wanted, hits);
      ghost var t := entries;
      assert t[..|t|] == t;
      if z == 0 && !wanted {
        assert Kept(t[..0]) == [];
      } else {
        SparedAreKept(s, addr1, addr2, wanted, hits, t, |s|);
      }
      GDelete();
    }
  }

  // ----- g and v with the command d ---------------------------------------------------------

  /** Whether global marks entry i: `hits` tells which lines match; the slot before the first line never does. */
  predicate Selected(i: int, addr1: int, addr2: int, wanted: bool, hits: seq<bool>)
    requires 0 <= i < |hits|
  {
    addr1 <= i <= addr2 && (i != 0 && hits[i]) == wanted
  }

  /** t is s with exactly the selected entries marked. */
  predicate AreMarked(s: seq<int>, addr1: int, addr2: int, wanted: bool, hits: seq<bool>, t: seq<int>) {
    && |t| == |s| == |hits|
    && forall i :: 0 <= i < |s| ==> t[i] == Unmark(s[i]) + if Selected(i, addr1, addr2, wanted, hits) then 1 else 0
  }

  /** The lines up to entry n that are not selected, their marks cleared. */
  function Spared(s: seq<int>, n: nat, addr1: int, addr2: int, wanted: bool, hits: seq<bool>): seq<int>
    requires n <= |s| == |hits|
  {
    if n <= 1 then []
    else
      Spared(s, n - 1, addr1, addr2, wanted, hits) +
      if Selected(n - 1, addr1, addr2, wanted, hits) then [] else [Unmark(s[n - 1])]
  }

  lemma {:induction false} SparedAreKept(s: seq<int>, addr1: int, addr2: int, wanted: bool, hits: seq<bool>,
                                         t: seq<int>, n: nat)
    requires AreMarked(s, addr1, addr2, wanted, hits, t) && 0 < n <= |s| && !Selected(0, addr1, addr2, wanted, hits)
    ensures Kept(t[..n]) == [Unmark(s[0])] + Spared(s, n, addr1, addr2, wanted, hits)
  {
    assert t[..n][..n - 1] == t[..n - 1];
    if n > 1 {
      SparedAreKept(s, addr1, addr2, wanted, hits, t, n - 1);
    } else {
      assert t[..0] == [];
    }
  }

  /** v/x/d on an empty file: the slot before the first line is marked, and nothing is kept. */
  lemma EmptyFileLosesSlot(t: seq<int>)
    requires AreMarked([0], 0, 0, false, [false], t)
    ensures t == [1] && Kept(t) == []
  {
    assert [1][..0] == [];
  }

  /** A marked entry goes, so fewer are kept. */
  lemma {:induction false} KeptShort(s: seq<int>, m: nat)
    requires m < |s| && Marked(s[m])
    ensures |Kept(s)| < |s|
  {
    if m < |s| - 1 {
      KeptShort(s[..|s| - 1], m);
    } else {
      KeptLength(s[..m]);
    }
  }
}
