/**
 The names of cell locks. An edit stores the name with its user, an update removes it, a rollback looks it up, and
 opening a document reads place and owner back from every name that starts with the document's.
 */
module Locks {
  import opened Common
  import opened Text
  import opened UndoLog

  function LockIndex(c: CellId): string {
    "/" + c.file + "-" + Itoa(c.row) + "-" + Itoa(c.col)
  }

  lemma DashBefore(front: string, digits: string)
    requires Digits(digits)
    ensures var s := front + "-" + digits; LastDash(s) == |front| && s[..|front|] == front && s[|front| + 1..] == digits
  {
    var s := front + "-" + digits;
    assert s[|front|] == '-';
    forall i | |front| < i < |s| ensures s[i] != '-' {
      assert s[i] == digits[i - |front| - 1];
    }
  }

  /** Whatever the document is called, the last two dashes of a lock's name give back document, row and column. */
  lemma LockParses(c: CellId)
    ensures var name := LockIndex(c); var d := LastDash(name);
      && d >= 0 && Atoi(name[d + 1..]) == c.col
      && var e := LastDash(name[..d]);
      && e >= 0 && name[..e] == "/" + c.file && Atoi(name[e + 1..d]) == c.row
  {
    hide LastDash, Itoa, Atoi;
    var name, front := LockIndex(c), "/" + c.file + "-" + Itoa(c.row);
    DashBefore(front, Itoa(c.col));
    DashBefore("/" + c.file, Itoa(c.row));
    AtoiItoa(c.row);
    AtoiItoa(c.col);
    var d := LastDash(name);
    assert name[..d] == front;
    assert name[..LastDash(front)] == front[..LastDash(front)];
    assert name[LastDash(front) + 1..d] == front[LastDash(front) + 1..];
  }

  /** Two cells have the same lock if and only if they are the same cell. */
  lemma LockIsCell(c: CellId, d: CellId)
    ensures LockIndex(c) == LockIndex(d) <==> c == d
  {
    hide LockIndex, LastDash, Atoi;
    LockParses(c);
    LockParses(d);
    if LockIndex(c) == LockIndex(d) {
      assert ("/" + c.file)[1..] == c.file && ("/" + d.file)[1..] == d.file;
    }
  }

  // ----- who edits what -----

  /** What edits and updates do to locks. */
  datatype Edit = Took(cell: CellId, user: string) | Freed(cell: CellId)

  /** The user who took the cell last, unless it was freed since. */
  function Holder(edits: seq<Edit>, c: CellId): Option<string> {
    if edits == [] then None
    else
      var e := edits[|edits| - 1];
      if e.cell != c then Holder(edits[..|edits| - 1], c)
      else if e.Took? then Some(e.user) else None
  }

  /** The map has exactly the locks that are held. */
  ghost predicate LocksHold(lockMap: map<string, string>, edits: seq<Edit>) {
    && (forall name :: name in lockMap ==> exists c :: LockIndex(c) == name)
    && forall c :: Holder(edits, c) == if LockIndex(c) in lockMap then Some(lockMap[LockIndex(c)]) else None
  }

  lemma HolderNext(edits: seq<Edit>, e: Edit, c: CellId)
    ensures Holder(edits + [e], c) == if e.cell != c then Holder(edits, c) else if e.Took? then Some(e.user) else None
  {
    assert (edits + [e])[..|edits|] == edits;
  }

  lemma TakeKeeps(lockMap: map<string, string>, edits: seq<Edit>, x: CellId, user: string)
    requires LocksHold(lockMap, edits)
    ensures LocksHold(lockMap[LockIndex(x) := user], edits + [Took(x, user)])
  {
    hide LockIndex, Holder;
    forall c ensures Holder(edits + [Took(x, user)], c) ==
      if LockIndex(c) in lockMap[LockIndex(x) := user] then Some(lockMap[LockIndex(x) := user][LockIndex(c)]) else None
    {
      HolderNext(edits, Took(x, user), c);
      LockIsCell(c, x);
    }
  }

  lemma FreeKeeps(lockMap: map<string, string>, edits: seq<Edit>, x: CellId)
    requires LocksHold(lockMap, edits)
    ensures LocksHold(lockMap - {LockIndex(x)}, edits + [Freed(x)])
  {
    hide LockIndex, Holder;
    var rest := lockMap - {LockIndex(x)};
    forall c ensures Holder(edits + [Freed(x)], c) == if LockIndex(c) in rest then Some(rest[LockIndex(c)]) else None {
      HolderNext(edits, Freed(x), c);
      LockIsCell(c, x);
    }
  }

  /** The last edit or update of the cell, at index i, took it for the user. */
  ghost predicate TookLast(edits: seq<Edit>, c: CellId, user: string, i: nat) {
    i < |edits| && edits[i] == Took(c, user) && forall j :: i < j < |edits| ==> edits[j].cell != c
  }

  /** A cell is held by the user whose taking is the last thing that happened to it, and by nobody otherwise. */
  lemma {:induction false} HeldExactly(edits: seq<Edit>, c: CellId, user: string)
    ensures Holder(edits, c) == Some(user) <==> exists i: nat :: TookLast(edits, c, user, i)
  {
    if edits != [] {
      var n := |edits| - 1;
      var before := edits[..n];
      HeldExactly(before, c, user);
      if edits[n].cell == c {
        assert edits[n] == Took(c, user) ==> TookLast(edits, c, user, n);
      } else {
        if i: nat :| TookLast(before, c, user, i) {
          assert TookLast(edits, c, user, i);
        }
        if i: nat :| TookLast(edits, c, user, i) {
          assert TookLast(before, c, user, i);
        }
      }
    }
  }

  // ----- the locks that opening a document reports -----

  datatype FileLock = FileLock(file: string, owner: string, row: nat, col: nat)

  /** The handler compares the front of every lock's name with the document's, and reads two pieces of it. */
  predicate Breaks(name: string, file: string) {
    |name| < 1 + |file| || (Shows(name, file) && |Split(name, '-')| < 3)
  }

  predicate Shows(name: string, file: string) {
    "/" + file <= name
  }

  function LockOf(name: string, file: string, owner: string): FileLock
    requires |Split(name, '-')| >= 3
  {
    var sp := Split(name, '-');
    FileLock(file, owner, Atoi(sp[1]), Atoi(sp[2]))
  }

  /** The locks in any order of the names; None is an index out of range. */
  method ReportLocks(lockMap: map<string, string>, file: string) returns (r: Option<seq<FileLock>>)
    ensures r.None? <==> exists name :: name in lockMap && Breaks(name, file)
    ensures r.Some? ==> forall lock :: lock in r.value <==>
      exists name :: name in lockMap && Shows(name, file) && LockOf(name, file, lockMap[name]) == lock
  {
    hide Split, Atoi;
    var slice: seq<FileLock> := [];
    var left := lockMap.Keys;
    while left != {}
      invariant left <= lockMap.Keys
      invariant forall name :: name in lockMap && name !in left ==> !Breaks(name, file)
      invariant forall name :: name in lockMap && name !in left && Shows(name, file) ==> LockOf(name, file, lockMap[name]) in slice
      invariant forall lock :: lock in slice ==>
        exists name :: name in lockMap && name !in left && Shows(name, file) && LockOf(name, file, lockMap[name]) == lock
      decreases |left|
    {
      var k :| k in left;
      var lockHead := "/" + file;
      if |k| < |lockHead| {
        assert Breaks(k, file);
        return None;
      }
      if k[..|lockHead|] == lockHead {
        var sp := Split(k, '-');
        if |sp| < 3 {
          assert Breaks(k, file);
          return None;
        }
        var lock := FileLock(file, lockMap[k], Atoi(sp[1]), Atoi(sp[2]));
        assert lock == LockOf(k, file, lockMap[k]);
        slice := slice + [lock];
      }
      left := left - {k};
    }
    r := Some(slice);
  }

  /** Opening the document neither breaks on the cell's lock nor shows it unless the cell is in the document, and
      then shows its place. */
  ghost predicate ShownRight(file: string, c: CellId) {
    var name := LockIndex(c);
    && !Breaks(name, file)
    && (Shows(name, file) <==> c.file == file)
    && (Shows(name, file) ==> forall owner :: LockOf(name, file, owner) == FileLock(file, owner, c.row, c.col))
  }

  /** The names are free of dashes, none starts with another, and none is five or more longer than another. */
  predicate Plain(f: string, g: string) {
    '-' !in f && (f <= g ==> f == g) && |f| <= |g| + 4
  }

  lemma LockSplit(c: CellId)
    ensures Split(LockIndex(c), '-') == Split("/" + c.file, '-') + [Itoa(c.row), Itoa(c.col)]
  {
    hide Split, Itoa;
    var front := "/" + c.file;
    SplitMore(front, Itoa(c.row), '-');
    SplitMore(front + "-" + Itoa(c.row), Itoa(c.col), '-');
    assert LockIndex(c) == front + ['-'] + Itoa(c.row) + ['-'] + Itoa(c.col);
  }

  lemma PlainShown(f: string, c: CellId)
    requires Plain(f, c.file) && Plain(c.file, f)
    ensures ShownRight(f, c)
  {
    hide Split, Itoa, Atoi;
    var name := LockIndex(c);
    LockSplit(c);
    SplitOne("/" + c.file, '-');
    AtoiItoa(c.row);
    AtoiItoa(c.col);
    if c.file == f {
      assert "/" + f <= name;
    } else if "/" + f <= name {
      HeadInside(f, c);
    }
  }

  /** A name without dashes that a lock's name starts with is the front of the lock's document. */
  lemma HeadInside(f: string, c: CellId)
    requires '-' !in f && "/" + f <= LockIndex(c)
    ensures f <= c.file
  {
    hide Itoa;
    var name, head := LockIndex(c), "/" + f;
    assert name[1 + |c.file|] == '-';
    assert forall i :: 0 <= i < |f| ==> f[i] == head[1 + i] == name[1 + i];
    assert forall i :: 0 <= i < |c.file| ==> c.file[i] == name[1 + i];
  }

  lemma DigitZero()
    ensures Itoa(0) == "0" && Itoa(1) == "1" && Atoi("0") == 0 && Atoi("1") == 1
  {
    AtoiItoa(0);
    AtoiItoa(1);
  }

  /** A document whose name has a dash shows some of its own locks at a wrong place. */
  lemma DashMisplaces(f: string)
    requires '-' in f
    ensures !ShownRight(f, CellId(f, 0, 0)) || !ShownRight(f, CellId(f, 1, 0))
  {
    hide Split, Itoa, Atoi;
    var zero, one := CellId(f, 0, 0), CellId(f, 1, 0);
    LockSplit(zero);
    LockSplit(one);
    SplitOne("/" + f, '-');
    assert ("/" + f)[1..] == f;
    DigitZero();
    assert LockOf(LockIndex(zero), f, "").row == Atoi(Split(LockIndex(zero), '-')[1]);
    var front := Split("/" + f, '-');
    if |front| == 2 {
      assert LockOf(LockIndex(one), f, "").col == 1;
    } else {
      assert LockOf(LockIndex(zero), f, "") == LockOf(LockIndex(one), f, "");
    }
  }

  /** Opening one document fails or shows a wrong lock because of another. */
  lemma OtherMisleads(f: string, g: string)
    requires f != g && (f <= g || |f| > |g| + 4)
    ensures !ShownRight(f, CellId(g, 0, 0))
  {
    hide Split, Itoa;
    DigitZero();
    if f <= g {
      assert "/" + f <= LockIndex(CellId(g, 0, 0));
    }
  }

  /** All locks of a set of documents are always shown right if and only if their names are plain. */
  lemma LocksShownExactly(names: set<string>)
    ensures (forall f, c: CellId :: f in names && c.file in names && c.row < ROWS && c.col < COLS ==> ShownRight(f, c)) <==>
      forall f, g :: f in names && g in names ==> Plain(f, g)
  {
    hide ShownRight, Plain;
    if forall f, g :: f in names && g in names ==> Plain(f, g) {
      forall f, c: CellId | f in names && c.file in names && c.row < ROWS && c.col < COLS ensures ShownRight(f, c) {
        PlainShown(f, c);
      }
    }
    if forall f, c: CellId :: f in names && c.file in names && c.row < ROWS && c.col < COLS ==> ShownRight(f, c) {
      forall f, g | f in names && g in names ensures Plain(f, g) {
        assert ShownRight(f, CellId(f, 0, 0)) && ShownRight(f, CellId(f, 1, 0)) && ShownRight(f, CellId(g, 0, 0));
        NotPlain(f, g);
      }
    }
  }

  lemma NotPlain(f: string, g: string)
    ensures Plain(f, g) || !ShownRight(f, CellId(f, 0, 0)) || !ShownRight(f, CellId(f, 1, 0)) || !ShownRight(f, CellId(g, 0, 0))
  {
    hide ShownRight;
    if '-' in f {
      DashMisplaces(f);
    } else if f != g && (f <= g || |f| > |g| + 4) {
      OtherMisleads(f, g);
    }
  }
}
