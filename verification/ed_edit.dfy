// ed's append and its t command, which need both the temporary file and the line table.

/** append, getcopy and the copying form of move in sys/src/cmd/ed.c. */
module EdEdit {
  import opened EdStore
  import opened EdTable

  type Stored = map<int, seq<Rune>>

  /** The lines held by a run of table entries. */
  function Text(lines: Stored, s: seq<int>): (t: seq<seq<Rune>>)
    requires forall h :: h in s ==> Unmark(h) in lines
    ensures |t| == |s| && forall k :: 0 <= k < |s| ==> t[k] == lines[Unmark(s[k])]
  {
    seq(|s|, k requires 0 <= k < |s| => lines[Unmark(s[k])])
  }

  /** There is a line for an entry, and getline is defined on it. */
  predicate CanRead(lines: Stored, h: int) {
    Unmark(h) in lines && (Marked(h) ==> lines[Unmark(h)] != [])
  }

  /** What getline yields for an entry: the line, less its first rune when the entry is marked. */
  function Read(lines: Stored, h: int): seq<Rune>
    requires CanRead(lines, h)
  {
    if Marked(h) then lines[Unmark(h)][1..] else lines[Unmark(h)]
  }

  predicate Sound(lines: Stored, s: seq<int>, i: int, j: int)
    requires 0 <= i <= j <= |s|
  {
    forall k :: i <= k < j ==> CanRead(lines, s[k])
  }

  /** t holds the copies that the t command makes of the lines at entries i..j-1. */
  predicate AreCopies(lines: Stored, s: seq<int>, i: int, j: int, t: seq<seq<Rune>>)
    requires 0 <= i <= j <= |s| && Sound(lines, s, i, j)
  {
    |t| == j - i && forall k :: i <= k < j ==> t[k - i] == Read(lines, s[k])
  }

  /** t holds the copies of some of the first of these lines. */
  predicate AreFirstCopies(lines: Stored, s: seq<int>, i: int, j: int, t: seq<seq<Rune>>)
    requires 0 <= i <= j <= |s| && Sound(lines, s, i, j)
  {
    |t| <= j - i && AreCopies(lines, s, i, i + |t|, t)
  }

  lemma MoreCopies(lines: Stored, s: seq<int>, i: int, k: int, t: seq<seq<Rune>>)
    requires 0 <= i <= k < |s| && Sound(lines, s, i, k + 1) && AreCopies(lines, s, i, k, t)
    ensures AreCopies(lines, s, i, k + 1, t + [Read(lines, s[k])])
  {
  }

  /** The copies are the lines exactly when no entry is marked. */
  lemma CopiesAreLines(lines: Stored, s: seq<int>, i: int, j: int, c: seq<seq<Rune>>)
    requires 0 <= i <= j <= |s| && Sound(lines, s, i, j) && AreCopies(lines, s, i, j, c)
    ensures (forall h :: h in s[i..j] ==> Unmark(h) in lines)
    ensures c == Text(lines, s[i..j]) <==> forall k :: i <= k < j ==> !Marked(s[k])
  {
    var t := Text(lines, s[i..j]);
    forall k | i <= k < j ensures Marked(s[k]) <==> c[k - i] != t[k - i] {
      assert t[k - i] == lines[Unmark(s[k])];
      assert Marked(s[k]) ==> |c[k - i]| == |t[k - i]| - 1;
    }
    if forall k :: i <= k < j ==> !Marked(s[k]) {
      forall n | 0 <= n < |c| ensures c[n] == t[n] {
        assert Marked(s[n + i]) <==> c[n + i - i] != t[n + i - i];
      }
    }
  }

  /** What is stored in the temporary file are lines without newlines. */
  predicate Clean(lines: Stored) {
    forall h :: h in lines ==> IsLine(lines[h]) && NEWLINE !in lines[h]
  }

  lemma {:induction false} UptoAll(text: seq<Rune>)
    requires NEWLINE !in text
    ensures Upto(text) == text
  {
    if text != [] {
      UptoAll(text[1..]);
    }
  }

  /**
   * Lines appended after entry a of a table s: the entries are now r, where b holds the new handles, each with its
   * text, and what was stored before is still there.
   */
  predicate Appended(s: seq<int>, was: Stored, a: nat, texts: seq<seq<Rune>>, b: seq<int>, r: seq<int>, lines: Stored)
    requires a < |s|
  {
    && r == s[..a + 1] + b + s[a + 1..] && |b| == |texts|
    && (forall k :: 0 <= k < |b| ==> b[k] in lines && !Marked(b[k]) && lines[b[k]] == texts[k])
    && forall h :: h in was ==> h in lines && lines[h] == was[h]
  }

  lemma AppendStep(s: seq<int>, was: Stored, a: nat, texts: seq<seq<Rune>>, b: seq<int>, r: seq<int>, lines: Stored,
                   tl: int, text: seq<Rune>)
    requires a < |s| && Appended(s, was, a, texts, b, r, lines) && tl !in lines && !Marked(tl)
    ensures |r| > a + |b|
    ensures Appended(s, was, a, texts + [text], b + [tl], Inserted(r, a + |b|, tl), lines[tl := text])
  {
    var r' := Inserted(r, a + |b|, tl);
    assert r' == s[..a + 1] + (b + [tl]) + s[a + 1..];
  }

  /** What the lines are after appending. */
  lemma AppendedText(s: seq<int>, was: Stored, a: nat, texts: seq<seq<Rune>>, b: seq<int>, r: seq<int>, lines: Stored)
    requires a < |s| && Appended(s, was, a, texts, b, r, lines)
    requires Held(was, s)
    ensures forall h :: h in r[1..] ==> Unmark(h) in lines
    ensures Text(lines, r[1..]) == Text(was, s[1..])[..a] + texts + Text(was, s[1..])[a..]
  {
    assert r[1..] == s[1..][..a] + b + s[1..][a..];
  }

  /** Lines as they are stored. */
  function FirstParts(input: seq<seq<Rune>>): (t: seq<seq<Rune>>)
    ensures |t| == |input| && forall k :: 0 <= k < |t| ==> t[k] == Upto(input[k])
  {
    seq(|input|, k requires 0 <= k < |input| => Upto(input[k]))
  }

  /** Every entry of a table but the first is the handle of a line, marked or not. */
  predicate Held(lines: Stored, s: seq<int>) {
    forall k :: 0 < k < |s| ==> Unmark(s[k]) in lines
  }

  lemma LineJoins(lines: Stored, s: seq<int>, d: nat, tl: int, text: seq<Rune>)
    requires Clean(lines) && Held(lines, s) && d < |s| && IsLine(text) && !Marked(tl)
    ensures Clean(lines[tl := Upto(text)]) && Held(lines[tl := Upto(text)], Inserted(s, d, tl))
  {
    var r := Inserted(s, d, tl);
    forall k | 0 < k < |r| ensures Unmark(r[k]) in lines[tl := Upto(text)] {
      assert r[k] == if k <= d then s[k] else if k == d + 1 then tl else s[k - 1];
    }
  }

  /** A block appended to a table s and then placed after entry t might as well have been appended there. */
  lemma PlacedBlock(s: seq<int>, was: Stored, texts: seq<seq<Rune>>, b: seq<int>, r: seq<int>, lines: Stored, t: nat,
                    r': seq<int>)
    requires t < |s| && Appended(s, was, |s| - 1, texts, b, r, lines)
    requires |r| == |s| + |b| && IsMoved(r, |s|, |s| + |b|, t, r')
    ensures Appended(s, was, t, texts, b, r', lines)
  {
    assert r == s + b;
    MovedTail(s, b, t, r');
  }

  lemma MovedTail(s: seq<int>, b: seq<int>, t: nat, r: seq<int>)
    requires t < |s| && IsMoved(s + b, |s|, |s| + |b|, t, r)
    ensures r == s[..t + 1] + b + s[t + 1..]
  {
    var x := s[..t + 1] + b + s[t + 1..];
    forall k | 0 <= k < |r| ensures r[k] == x[k] {
      assert r[k] == (s + b)[MoveSource(|s|, |s| + |b|, t, k)];
    }
  }

  lemma AppendedHeld(s: seq<int>, was: Stored, a: nat, texts: seq<seq<Rune>>, b: seq<int>, r: seq<int>, lines: Stored)
    requires a < |s| && Held(was, s) && Appended(s, was, a, texts, b, r, lines)
    ensures Held(lines, r)
  {
    forall k | 0 < k < |r| ensures Unmark(r[k]) in lines {
      assert r[k] == if k <= a then s[k] else if k - a - 1 < |b| then b[k - a - 1] else s[k - |b|];
    }
  }

  /** A copy can be stored just as it was read, also when other lines have been stored since. */
  lemma CopyIsLine(was: Stored, lines: Stored, h: int)
    requires Clean(was) && CanRead(was, h) && forall h :: h in was ==> h in lines && lines[h] == was[h]
    ensures CanRead(lines, h) && Read(lines, h) == Read(was, h)
    ensures IsLine(Read(was, h)) && Upto(Read(was, h)) == Read(was, h)
  {
    UptoAll(Read(was, h));
  }

  lemma NextFirstPart(input: seq<seq<Rune>>, n: nat)
    requires n < |input|
    ensures FirstParts(input[..n + 1]) == FirstParts(input[..n]) + [Upto(input[n])]
  {
  }

  // ----- the lines after a rearrangement -------------------------------------------------------

  type Lines = seq<seq<Rune>>

  /** Lines i..j-1, counted from zero, placed behind the first t lines. */
  function MovedLines(l: Lines, i: nat, j: nat, t: nat): Lines
    requires i <= j <= |l| && t <= |l| && (t <= i || j <= t)
  {
    if t <= i then l[..t] + l[i..j] + l[t..i] + l[j..] else l[..i] + l[j..t] + l[i..j] + l[t..]
  }

  lemma AtFour<T>(a: seq<T>, b: seq<T>, c: seq<T>, d: seq<T>, k: nat)
    requires k < |a| + |b| + |c| + |d|
    ensures (a + b + c + d)[k] ==
            if k < |a| then a[k] else if k < |a| + |b| then b[k - |a|]
            else if k < |a| + |b| + |c| then c[k - |a| - |b|] else d[k - |a| - |b| - |c|]
  {
  }

  lemma MovedUpFrom(l: Lines, i: int, j: int, t: int, k: int)
    requires 0 <= t < i < j <= |l| + 1 && 0 < k <= |l|
    ensures var m, from := MovedLines(l, i - 1, j - 1, t), MoveSource(i, j, t, k);
            |m| == |l| && 0 < from <= |l| && m[k - 1] == l[from - 1]
  {
    AtFour(l[..t], l[i - 1..j - 1], l[t..i - 1], l[j - 1..], k - 1);
  }

  lemma MovedDownFrom(l: Lines, i: int, j: int, t: int, k: int)
    requires 0 < i < j <= t <= |l| && 0 < k <= |l|
    ensures var m, from := MovedLines(l, i - 1, j - 1, t), MoveSource(i, j, t, k);
            |m| == |l| && 0 < from <= |l| && m[k - 1] == l[from - 1]
  {
    AtFour(l[..i - 1], l[j - 1..t], l[i - 1..j - 1], l[t..], k - 1);
  }

  /** Entry k of the table after a move is that of the line it was taken from. */
  lemma MovedEntry(lines: Stored, s: seq<int>, c: seq<int>, r: seq<int>, i: int, j: int, t: int, k: int)
    requires 0 < i < j <= |s| && (0 <= t < i || j <= t < |s|) && Held(lines, s) && 0 < k < |s|
    requires IsCleared(s, i, j, c) && IsMoved(c, i, j, t, r)
    ensures var from := MoveSource(i, j, t, k);
            0 < from < |s| && Unmark(r[k]) in lines && lines[Unmark(r[k])] == lines[Unmark(s[from])]
  {
    var from := MoveSource(i, j, t, k);
    assert r[k] == c[from] == ClearedAt(s, i, j, from) && 0 < from < |s|;
  }

  /** That line stands there when the lines are moved. */
  lemma MovedLine(lines: Stored, s: seq<int>, i: int, j: int, t: int, k: int)
    requires 0 < i < j <= |s| && (0 <= t < i || j <= t < |s|) && Held(lines, s) && 0 < k < |s|
    ensures var m, from := MovedLines(Text(lines, s[1..]), i - 1, j - 1, t), MoveSource(i, j, t, k);
            |m| == |s| - 1 && 0 < from < |s| && m[k - 1] == lines[Unmark(s[from])]
  {
    var l := Text(lines, s[1..]);
    if t < i {
      MovedUpFrom(l, i, j, t, k);
    } else {
      MovedDownFrom(l, i, j, t, k);
    }
  }

  lemma TextByEntry(lines: Stored, r: seq<int>, m: Lines)
    requires |r| == |m| + 1 && forall k :: 0 < k < |r| ==> Unmark(r[k]) in lines && lines[Unmark(r[k])] == m[k - 1]
    ensures Held(lines, r) && Text(lines, r[1..]) == m
  {
  }

  /** What m does to the lines. */
  lemma TextMoved(lines: Stored, s: seq<int>, c: seq<int>, r: seq<int>, i: int, j: int, t: int)
    requires 0 < i < j <= |s| && (0 <= t < i || j <= t < |s|) && Held(lines, s)
    requires IsCleared(s, i, j, c) && IsMoved(c, i, j, t, r)
    ensures Held(lines, r) && Text(lines, r[1..]) == MovedLines(Text(lines, s[1..]), i - 1, j - 1, t)
  {
    var m := MovedLines(Text(lines, s[1..]), i - 1, j - 1, t);
    forall k | 0 < k < |r| ensures Unmark(r[k]) in lines && |m| == |s| - 1 && lines[Unmark(r[k])] == m[k - 1] {
      MovedEntry(lines, s, c, r, i, j, t, k);
      MovedLine(lines, s, i, j, t, k);
    }
    TextByEntry(lines, r, m);
  }

  /** An m that fails has cleared the marks, which changes no line. */
  lemma TextCleared(lines: Stored, s: seq<int>, i: int, j: int, r: seq<int>)
    requires s != [] && Held(lines, s) && IsCleared(s, i, j, r)
    ensures Held(lines, r) && Text(lines, r[1..]) == Text(lines, s[1..])
  {
    forall k | 0 < k < |r| ensures Unmark(r[k]) == Unmark(s[k]) {
      assert r[k] == ClearedAt(s, i, j, k);
    }
  }

  /** The lines whose entries are not marked. */
  function Unmarked(l: Lines, s: seq<int>): Lines
    requires |l| == |s|
  {
    if s == [] then []
    else Unmarked(l[..|s| - 1], s[..|s| - 1]) + if Marked(s[|s| - 1]) then [] else [l[|s| - 1]]
  }

  lemma {:induction false} KeptFirst(h: int, s: seq<int>)
    requires !Marked(h)
    ensures Kept([h] + s) == [h] + Kept(s)
  {
    if s == [] {
      assert [h] + s == [h] && Kept([h][..0]) == [];
    } else {
      assert ([h] + s)[..|s|] == [h] + s[..|s| - 1];
      KeptFirst(h, s[..|s| - 1]);
    }
  }

  /** What the end of g/re/d does to the lines. */
  lemma {:induction false} TextKept(lines: Stored, s: seq<int>)
    requires forall h :: h in s ==> Unmark(h) in lines
    ensures forall h :: h in Kept(s) ==> Unmark(h) in lines
    ensures Text(lines, Kept(s)) == Unmarked(Text(lines, s), s)
  {
    if s != [] {
      var t := s[..|s| - 1];
      TextKept(lines, t);
      assert Text(lines, t) == Text(lines, s)[..|s| - 1];
      assert Unmark(s[|s| - 1]) in lines;
    }
  }

  lemma TextCompacted(lines: Stored, s: seq<int>, r: seq<int>)
    requires s != [] && !Marked(s[0]) && Held(lines, s) && r == Kept(s)
    ensures r != [] && Held(lines, r) && Text(lines, r[1..]) == Unmarked(Text(lines, s[1..]), s[1..])
  {
    assert s == [s[0]] + s[1..];
    KeptFirst(s[0], s[1..]);
    TextKept(lines, s[1..]);
    assert r[1..] == Kept(s[1..]);
  }

  lemma {:induction false} KeptSkips(h: int, s: seq<int>)
    requires Marked(h)
    ensures Kept([h] + s) == Kept(s)
  {
    if s == [] {
      assert [h] + s == [h] && Kept([h][..0]) == [];
    } else {
      assert ([h] + s)[..|s|] == [h] + s[..|s| - 1];
      KeptSkips(h, s[..|s| - 1]);
    }
  }

  /** When the slot before the first line is marked, the first line to be kept takes its place. */
  lemma SlotLost(lines: Stored, s: seq<int>)
    requires s != [] && Marked(s[0]) && Held(lines, s)
    ensures |Kept(s)| == |Unmarked(Text(lines, s[1..]), s[1..])|
  {
    assert s == [s[0]] + s[1..];
    KeptSkips(s[0], s[1..]);
    TextKept(lines, s[1..]);
  }

  /** Of the first n lines those that global does not select. */
  function Unselected(l: Lines, n: nat, addr1: int, addr2: int, wanted: bool, hits: seq<bool>): Lines
    requires n <= |l| == |hits| - 1
  {
    if n == 0 then []
    else
      Unselected(l, n - 1, addr1, addr2, wanted, hits) +
      if Selected(n, addr1, addr2, wanted, hits) then [] else [l[n - 1]]
  }

  lemma TextNext(lines: Stored, t: seq<int>, h: int)
    requires Unmark(h) in lines && forall k :: k in t ==> Unmark(k) in lines
    ensures Text(lines, t + [h]) == Text(lines, t) + [lines[Unmark(h)]]
  {
  }

  lemma AfterGlobal(lines: Stored, s: seq<int>, addr1: int, addr2: int, wanted: bool, hits: seq<bool>, r: seq<int>)
    requires |s| == |hits| > 0 && Held(lines, s)
    requires r == [Unmark(s[0])] + Spared(s, |s|, addr1, addr2, wanted, hits)
    ensures Held(lines, r)
    ensures Text(lines, r[1..]) == Unselected(Text(lines, s[1..]), |s| - 1, addr1, addr2, wanted, hits)
  {
    TextSpared(lines, s, |s|, addr1, addr2, wanted, hits);
    assert r[1..] == Spared(s, |s|, addr1, addr2, wanted, hits);
  }

  lemma {:induction false} TextSpared(lines: Stored, s: seq<int>, n: nat, addr1: int, addr2: int, wanted: bool,
                                      hits: seq<bool>)
    requires 0 < n <= |s| == |hits| && Held(lines, s)
    ensures forall h :: h in Spared(s, n, addr1, addr2, wanted, hits) ==> Unmark(h) in lines
    ensures Text(lines, Spared(s, n, addr1, addr2, wanted, hits)) ==
            Unselected(Text(lines, s[1..]), n - 1, addr1, addr2, wanted, hits)
  {
    if n > 1 {
      var t, h := Spared(s, n - 1, addr1, addr2, wanted, hits), Unmark(s[n - 1]);
      TextSpared(lines, s, n - 1, addr1, addr2, wanted, hits);
      assert h in lines && Unmark(h) == h && Text(lines, s[1..])[n - 2] == lines[h];
      TextNext(lines, t, h);
    }
  }

  lemma TextWithout(lines: Stored, s: seq<int>, i: int, n: int)
    requires 0 < i && 0 <= n && i + n <= |s| && Held(lines, s)
    ensures Held(lines, Without(s, i, n))
    ensures Text(lines, Without(s, i, n)[1..]) == Text(lines, s[1..])[..i - 1] + Text(lines, s[1..])[i - 1 + n..]
  {
    var r := Without(s, i, n);
    forall k | 0 < k < |r| ensures Unmark(r[k]) in lines && r[k] == s[if k < i then k else k + n] {
    }
  }

  /** What m makes of lines i..j-1, done or refused. */
  function MoveResult(l: Lines, i: int, j: int, t: int, done: bool): Lines
    requires done ==> 0 < i <= j <= |l| + 1 && (0 <= t < i || j <= t <= |l|)
  {
    if done then MovedLines(l, i - 1, j - 1, t) else l
  }

  lemma AfterMove(lines: Stored, s: seq<int>, c: seq<int>, r: seq<int>, i: int, j: int, t: int, done: bool)
    requires 0 < i < j <= |s| && 0 <= t < |s| && Held(lines, s) && (done <==> t < i || j <= t)
    requires IsCleared(s, i, j, c) && if done then IsMoved(c, i, j, t, r) else r == c
    ensures Held(lines, r) && Text(lines, r[1..]) == MoveResult(Text(lines, s[1..]), i, j, t, done)
  {
    if done {
      TextMoved(lines, s, c, r, i, j, t);
    } else {
      TextCleared(lines, s, i, j, c);
    }
  }

  /** m on a table whose entries are those of some lines. */
  method MoveEntries(table: LineTable, addr1: int, addr2: int, adt: int, ghost lines: Stored) returns (outcome: Outcome)
    requires table.Valid() && Held(lines, table.entries) && 0 < addr1 <= addr2 <= table.dol && 0 <= adt <= table.dol
    modifies table`dot, table`entries, table.tab
    ensures table.Valid() && Held(lines, table.entries) && (outcome.Error? <==> addr1 <= adt <= addr2)
    ensures Text(lines, table.entries[1..]) ==
            MoveResult(Text(lines, old(table.entries)[1..]), addr1, addr2 + 1, adt, outcome.Done?)
    ensures table.dot ==
            if outcome.Error? then old(table.dot) else if adt < addr1 then adt + (addr2 + 1 - addr1) else adt
  {
    ghost var s := table.entries;
    ghost var cleared;
    outcome, cleared := table.Move(addr1, addr2, adt);
    assert |s| == table.dol + 1;
    AfterMove(lines, s, cleared, table.entries, addr1, addr2 + 1, adt, outcome.Done?);
  }

  class Editor {
    const file: TempFile
    const table: LineTable
    var addr1: int
    var addr2: int

    /** The objects of the two parts are apart from each other. */
    ghost predicate Apart()
      reads this, table
    {
      var t: object := table.tab;
      t != file.ibuff && t != file.obuff
    }

    /** What holds also after a line has not fitted into the temporary file. */
    ghost predicate Steady()
      reads this, file, file.ibuff, file.obuff, table, table.tab
    {
      && Apart() && file.Usable() && table.Valid() && table.dot <= table.dol
      && Clean(file.lines) && Held(file.lines, table.entries)
    }

    ghost predicate Valid()
      reads this, file, file.ibuff, file.obuff, table, table.tab
    {
      Steady() && file.Valid()
    }

    /** A line can be put without harm to others. */
    ghost predicate Ready()
      reads this, file, file.ibuff, file.obuff, table, table.tab
    {
      Steady() && file.Safe()
    }

    /** The lines being edited. */
    ghost function Lines(): seq<seq<Rune>>
      requires Steady()
      reads this, file, file.ibuff, file.obuff, table, table.tab
    {
      Text(file.lines, table.entries[1..])
    }

    /** init: an empty file. */
    constructor ()
      ensures Valid() && Lines() == []
      ensures fresh(file) && fresh(file.ibuff) && fresh(file.obuff) && fresh(table) && fresh(table.tab)
    {
      file := new TempFile();
      table := new LineTable();
      addr1, addr2 := 0, 0;
    }

    /** putline of a whole line. */
    method PutText(text: seq<Rune>) returns (ok: bool, tl: int)
      requires Apart() && file.Usable() && file.Safe() && IsLine(text)
      modifies file, file.ibuff, file.obuff
      ensures file.Usable() && (ok ==> file.Safe()) && (ok && old(file.Valid()) ==> file.Valid())
      ensures ok ==> tl !in old(file.lines) && !Marked(tl) && file.lines == old(file.lines)[tl := Upto(text)]
      ensures !ok ==> file.lines == old(file.lines)
    {
      var rest;
      ok, tl, rest := file.PutLine(text);
    }

    /** One round of append: the table grows if it must, and the line goes after dot. */
    method AppendLine(text: seq<Rune>) returns (ok: bool, tl: int)
      requires Ready() && IsLine(text)
      modifies file, file.ibuff, file.obuff, table, table.tab
      ensures Steady() && (table.tab == old(table.tab) || fresh(table.tab))
      ensures (ok ==> Ready()) && (ok && old(Valid()) ==> Valid())
      ensures ok ==> tl !in old(file.lines) && !Marked(tl) && file.lines == old(file.lines)[tl := Upto(text)]
      ensures ok ==> table.dot == old(table.dot) + 1 && table.dol == old(table.dol) + 1
      ensures ok ==> table.entries == Inserted(old(table.entries), old(table.dot), tl)
      ensures !ok ==> file.lines == old(file.lines) && table.entries == old(table.entries)
      ensures !ok ==> table.dot == old(table.dot)
    {
      table.Grow();
      ghost var s, lines := table.entries, file.lines;
      ok, tl := PutText(text);
      if ok {
        LineJoins(lines, s, table.dot, tl, text);
        table.Insert(tl);
      }
    }

    /** The state of append after it has put `texts` after line a of a table s; b are their handles. */
    ghost predicate Appending(s: seq<int>, was: Stored, a: nat, texts: seq<seq<Rune>>, b: seq<int>)
      requires a < |s|
      reads this, file, file.ibuff, file.obuff, table, table.tab
    {
      Steady() && table.dot == a + |b| && Appended(s, was, a, texts, b, table.entries, file.lines)
    }

    /** The beginning of append. */
    method BeginAppend(a: int)
      requires Steady() && 0 <= a <= table.dol
      modifies table`dot
      ensures Appending(table.entries, file.lines, a, [], []) && (old(Valid()) ==> Valid())
    {
      ghost var s := table.entries;
      table.dot := a;
      assert s == s[..a + 1] + [] + s[a + 1..];
    }

    /** A round of append in terms of that state. */
    method AppendNext(text: seq<Rune>, ghost s: seq<int>, ghost was: Stored, ghost a: nat, ghost texts: seq<seq<Rune>>,
                      ghost b: seq<int>) returns (ok: bool, ghost b': seq<int>)
      requires a < |s| && Ready() && Appending(s, was, a, texts, b) && IsLine(text)
      modifies file, file.ibuff, file.obuff, table, table.tab
      ensures table.tab == old(table.tab) || fresh(table.tab)
      ensures (ok ==> Ready()) && (ok && old(Valid()) ==> Valid())
      ensures Appending(s, was, a, if ok then texts + [Upto(text)] else texts, b')
    {
      ghost var r, lines := table.entries, file.lines;
      var tl;
      ok, tl := AppendLine(text);
      b' := b;
      if ok {
        b' := b + [tl];
        AppendStep(s, was, a, texts, b, r, lines, tl, Upto(text));
      }
    }

    /**
     * append fed with lines from the terminal or from a file: they stand after line a, and dot at the last. When one
     * does not fit into the temporary file, those before it do.
     */
    method Append(input: seq<seq<Rune>>, a: int) returns (n: nat)
      requires Ready() && 0 <= a <= table.dol && forall k :: 0 <= k < |input| ==> IsLine(input[k])
      modifies file, file.ibuff, file.obuff, table, table.tab
      ensures (table.tab == old(table.tab) || fresh(table.tab)) && n <= |input|
      ensures n == |input| ==> Ready() && (old(Valid()) ==> Valid())
      ensures Steady() && Lines() == old(Lines())[..a] + FirstParts(input[..n]) + old(Lines())[a..]
      ensures table.dot == a + n
    {
      ghost var s, was, texts, b := table.entries, file.lines, [], [];
      BeginAppend(a);
      n := 0;
      var ok := true;
      while n < |input| && ok
        invariant 0 <= n <= |input| && texts == FirstParts(input[..n]) && Appending(s, was, a, texts, b)
        invariant (table.tab == old(table.tab) || fresh(table.tab)) && (n == |input| ==> ok)
        invariant ok ==> Ready() && (old(Valid()) ==> Valid())
        decreases |input| - n, ok
      {
        NextFirstPart(input, n);
        ok, b := AppendNext(input[n], s, was, a, texts, b);
        if ok {
          texts, n := texts + [Upto(input[n])], n + 1;
        }
      }
      AppendedText(s, was, a, texts, b, table.entries, file.lines);
    }

    /** getline on the entry of a line, marked or not. */
    method Fetch(i: int) returns (line: seq<Rune>)
      requires Valid() && 0 < i <= table.dol && CanRead(file.lines, table.tab[i])
      modifies file`iblock, file`oblock, file`ichanged, file`disk, file.ibuff
      ensures Valid() && line == Read(file.lines, table.tab[i])
    {
      var h := table.tab[i];
      if h % 2 == 0 {
        line := file.GetLine(h);
      } else {
        line := file.GetMarkedLine(h - 1);
      }
    }

    /** A round of append fed by getcopy. */
    method CopyNext(ghost s: seq<int>, ghost was: Stored, ghost a: nat, ghost texts: seq<seq<Rune>>, ghost b: seq<int>)
      returns (ok: bool, ghost b': seq<int>)
      requires |s| == a + 1 && Valid() && Appending(s, was, a, texts, b) && Clean(was)
      requires 0 < addr1 <= a && CanRead(was, s[addr1])
      modifies this`addr1, file, file.ibuff, file.obuff, table, table.tab
      ensures (table.tab == old(table.tab) || fresh(table.tab)) && (ok ==> Valid()) && addr1 == old(addr1) + 1
      ensures Appending(s, was, a, if ok then texts + [Read(was, s[old(addr1)])] else texts, b')
    {
      assert table.tab[addr1] == table.entries[addr1] == s[addr1];
      CopyIsLine(was, file.lines, s[addr1]);
      var line := Fetch(addr1);
      addr1 := addr1 + 1;
      ok, b' := AppendNext(line, s, was, a, texts, b);
    }

    /** The loop of append fed by getcopy, from the state that it begins in. */
    method CopyLines(ghost s: seq<int>, ghost was: Stored, ghost a: nat, ghost from: int, ghost end: int)
      returns (ok: bool, ghost texts: seq<seq<Rune>>, ghost b: seq<int>)
      requires |s| == a + 1 && Valid() && Appending(s, was, a, [], []) && Clean(was)
      requires 0 < from == addr1 < end == addr2 + 1 <= a + 1 && Sound(was, s, from, end)
      modifies this`addr1, file, file.ibuff, file.obuff, table, table.tab
      ensures (table.tab == old(table.tab) || fresh(table.tab)) && (ok ==> Valid()) && Appending(s, was, a, texts, b)
      ensures AreFirstCopies(was, s, from, end, texts) && (ok <==> |texts| == end - from)
    {
      texts, b := [], [];
      while addr1 <= addr2
        invariant from <= addr1 <= end == addr2 + 1 && AreCopies(was, s, from, addr1, texts)
        invariant Valid() && Appending(s, was, a, texts, b)
        invariant table.tab == old(table.tab) || fresh(table.tab)
      {
        ghost var k, line := addr1, Read(was, s[addr1]);
        ok, b := CopyNext(s, was, a, texts, b);
        if !ok {
          return;
        }
        MoreCopies(was, s, from, k, texts);
        texts := texts + [line];
      }
      ok := true;
    }

    /**
     * The t command: copies of lines addr1..addr2 stand directly after line adt, and dot is the last of them. When one
     * does not fit into the temporary file, those before it stand at the end.
     */
    method Transfer(adt: int) returns (ok: bool, ghost copies: seq<seq<Rune>>)
      requires Valid() && 0 < addr1 <= addr2 <= table.dol && 0 <= adt <= table.dol
      requires Sound(file.lines, table.entries, addr1, addr2 + 1)
      modifies this`addr1, file, file.ibuff, file.obuff, table, table.tab
      ensures Steady() && (table.tab == old(table.tab) || fresh(table.tab)) && (ok ==> Valid())
      ensures AreFirstCopies(old(file.lines), old(table.entries), old(addr1), addr2 + 1, copies)
      ensures ok <==> |copies| == addr2 + 1 - old(addr1)
      ensures var t := if ok then adt else old(table.dol);
              table.dot == t + |copies| && Lines() == old(Lines())[..t] + copies + old(Lines())[t..]
    {
      ghost var s, was, a, from, end := table.entries, file.lines, table.dol, addr1, addr2 + 1;
      ghost var before := Lines();
      assert before == Text(was, s[1..]);
      var ad1 := table.dol + 1;
      ghost var b;
      ok, copies, b := AppendCopies(s, was, a, from, end);
      if !ok {
        AppendedText(s, was, a, copies, b, table.entries, file.lines);
        return;
      }
      PlaceCopies(ad1, adt, s, was, a, copies, b);
      AppendedText(s, was, adt, copies, b, table.entries, file.lines);
    }

    /** The m command: lines addr1..addr2 stand directly after line adt, and dot is the last of them. */
    method Move(adt: int) returns (outcome: Outcome)
      requires Steady() && 0 < addr1 <= addr2 <= table.dol && 0 <= adt <= table.dol
      modifies table`dot, table`entries, table.tab
      ensures Steady() && (old(Valid()) ==> Valid()) && (outcome.Error? <==> addr1 <= adt <= addr2)
      ensures Lines() == MoveResult(old(Lines()), addr1, addr2 + 1, adt, outcome.Done?)
      ensures table.dot ==
              if outcome.Error? then old(table.dot) else if adt < addr1 then adt + (addr2 + 1 - addr1) else adt
    {
      outcome := MoveEntries(table, addr1, addr2, adt, file.lines);
    }

    /** rdelete: the addressed lines go. */
    method Delete()
      requires Steady() && 0 < addr1 <= addr2 <= table.dol
      modifies table`dot, table`dol, table`entries, table.tab
      ensures Steady() && (old(Valid()) ==> Valid())
      ensures Lines() == old(Lines())[..addr1 - 1] + old(Lines())[addr2..]
      ensures table.dot == if addr1 > table.dol then table.dol else addr1
    {
      TextWithout(file.lines, table.entries, addr1, addr2 + 1 - addr1);
      table.RDelete(addr1, addr2);
    }

    /**
     * gdelete: the lines whose entries are marked go, the others keep their order, if and only if the slot before the
     * first line is not marked.
     */
    method DeleteMarked()
      requires Steady()
      modifies table`dot, table`dol, table`entries, table.tab
      ensures old(Valid()) && Steady() ==> Valid()
      ensures (Steady() && Lines() == Unmarked(old(Lines()), old(table.entries)[1..]))
              <==> !Marked(old(table.entries)[0])
    {
      ghost var s := table.entries;
      if Marked(s[0]) {
        SlotLost(file.lines, s);
      } else {
        TextCompacted(file.lines, s, Kept(s));
      }
      table.GDelete();
    }

    /**
     * g/re/d and v/re/d: exactly the selected lines go, the others keep their order, if and only if the file is not
     * empty or the command is not v.
     */
    method GlobalDelete(a1: int, a2: int, wanted: bool, hits: seq<bool>)
      requires Steady() && |hits| == table.dol + 1 && 0 <= a1 <= a2 <= table.dol && (table.dol > 0 ==> a1 > 0)
      modifies table`dot, table`dol, table`entries, table.tab
      ensures old(Valid()) && Steady() ==> Valid()
      ensures (Steady() && Lines() == Unselected(old(Lines()), |hits| - 1, a1, a2, wanted, hits))
              <==> !(old(table.dol) == 0 && !wanted)
    {
      ghost var s := table.entries;
      table.GlobalDelete(a1, a2, wanted, hits);
      if |hits| > 1 || wanted {
        AfterGlobal(file.lines, s, a1, a2, wanted, hits, table.entries);
      }
    }

    /** append fed by getcopy: copies of lines addr1..addr2 at the end of the table. */
    method AppendCopies(ghost s: seq<int>, ghost was: Stored, ghost a: nat, ghost from: int, ghost end: int)
      returns (ok: bool, ghost texts: seq<seq<Rune>>, ghost b: seq<int>)
      requires Valid() && s == table.entries && was == file.lines && a == table.dol
      requires 0 < from == addr1 < end == addr2 + 1 <= a + 1 && Sound(was, s, from, end)
      modifies this`addr1, file, file.ibuff, file.obuff, table, table.tab
      ensures (table.tab == old(table.tab) || fresh(table.tab)) && (ok ==> Valid()) && Appending(s, was, a, texts, b)
      ensures AreFirstCopies(was, s, from, end, texts) && (ok <==> |texts| == end - from)
    {
      BeginAppend(table.dol);
      ok, texts, b := CopyLines(s, was, a, from, end);
    }

    /** The end of the t command: the copies, which stand at the end of the table, go after line adt. */
    method PlaceCopies(ad1: int, adt: int, ghost s: seq<int>, ghost was: Stored, ghost a: nat,
                       ghost copies: seq<seq<Rune>>, ghost b: seq<int>)
      requires 0 <= adt <= a && |s| == a + 1 == ad1 && b != [] && Held(was, s)
      requires Valid() && Appending(s, was, a, copies, b)
      modifies table`dot, table`entries, table.tab
      ensures Valid() && table.dot == adt + |b| && Appended(s, was, adt, copies, b, table.entries, file.lines)
    {
      ghost var r := table.entries;
      assert |r| == |s| + |b|;
      var outcome := table.Place(ad1, table.dol + 1, adt);
      PlacedBlock(s, was, copies, b, r, file.lines, adt, table.entries);
      AppendedHeld(s, was, adt, copies, b, table.entries, file.lines);
    }
  }
}
