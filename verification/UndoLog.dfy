/**
 The undo log that all users and files share. A rollback scans it backwards with a skip
 counter; the scan finds the top of the undo stack that a forward replay builds, and what it
 writes back is what the cell held before the update that it undoes.
 */
module UndoLog {
  import opened Common
  import opened Text

  datatype CellId = CellId(file: string, row: nat, col: nat)

  datatype Record =
    | Update(user: string, cell: CellId, before: string, after: string)
    | Rollback(user: string, file: string)
    | Other

  // ----- which update a rollback undoes -----

  predicate Pushes(r: Record, user: string, file: string) {
    r.Update? && r.user == user && r.cell.file == file
  }

  predicate Pops(r: Record, user: string, file: string) {
    r.Rollback? && r.user == user && r.file == file
  }

  /** Replays the log: the user's updates in the file that are not rolled back, latest last. */
  ghost function Stack(log: seq<Record>, user: string, file: string): seq<nat> {
    if log == [] then []
    else
      var n := |log| - 1;
      var s := Stack(log[..n], user, file);
      if Pushes(log[n], user, file) then s + [n]
      else if Pops(log[n], user, file) && s != [] then s[..|s| - 1]
      else s
  }

  /** The backward scan from index n - 1 with the skip counter. */
  function Scan(log: seq<Record>, n: nat, user: string, file: string, skip: nat): Option<nat>
    requires n <= |log|
  {
    if n == 0 then None
    else if Pushes(log[n - 1], user, file) then
      if skip == 0 then Some(n - 1) else Scan(log, n - 1, user, file, skip - 1)
    else if Pops(log[n - 1], user, file) then Scan(log, n - 1, user, file, skip + 1)
    else Scan(log, n - 1, user, file, skip)
  }

  /** The scan finds the element of the undo stack that lies `skip` below the top, and nothing
      exactly when there is none. */
  lemma {:induction false} ScanFindsStack(log: seq<Record>, n: nat, user: string, file: string, skip: nat)
    requires n <= |log|
    ensures var s := Stack(log[..n], user, file);
      Scan(log, n, user, file, skip) == if skip < |s| then Some(s[|s| - 1 - skip]) else None
  {
    if n > 0 {
      assert log[..n][..n - 1] == log[..n - 1];
      if Pushes(log[n - 1], user, file) {
        if skip > 0 {
          ScanFindsStack(log, n - 1, user, file, skip - 1);
        }
      } else if Pops(log[n - 1], user, file) {
        ScanFindsStack(log, n - 1, user, file, skip + 1);
      } else {
        ScanFindsStack(log, n - 1, user, file, skip);
      }
    }
  }

  /** Indices of the user's updates of the file, in order. */
  ghost predicate Ordered(log: seq<Record>, s: seq<nat>, user: string, file: string) {
    && (forall k :: 0 <= k < |s| ==> s[k] < |log| && Pushes(log[s[k]], user, file))
    && (forall j, k :: 0 <= j < k < |s| ==> s[j] < s[k])
  }

  lemma {:induction false} StackOrdered(log: seq<Record>, user: string, file: string)
    ensures Ordered(log, Stack(log, user, file), user, file)
  {
    if log != [] {
      var n := |log| - 1;
      StackOrdered(log[..n], user, file);
      var s0 := Stack(log[..n], user, file);
      forall k | 0 <= k < |s0| ensures s0[k] < n && Pushes(log[s0[k]], user, file) {
        assert log[..n][s0[k]] == log[s0[k]];
      }
    }
  }

  // ----- conflicts -----

  /** Another user's update of the same cell after the update at index t. */
  ghost predicate ConflictAt(log: seq<Record>, t: nat, i: nat) {
    && t < i < |log| && log[t].Update? && log[i].Update?
    && log[i].user != log[t].user && log[i].cell == log[t].cell
  }

  ghost predicate Conflict(log: seq<Record>, t: nat) {
    exists i: nat :: ConflictAt(log, t, i)
  }

  // ----- the cells -----

  /** Five spaces end the value in a cell. */
  const GAP: string := "     "
  const BLOCK: nat := 80

  // A document is a grid of cells.
  const COLS: nat := 60
  const ROWS: nat := 84
  const SIZE: nat := ROWS * COLS * BLOCK

  function Overlay(cell: string, value: string): string
    requires |value| <= |cell|
  {
    value + cell[|value|..]
  }

  /** The value that an update logs as the old one; none when the gap is missing. */
  function OldValue(cell: string): Option<string> {
    var p := Index(cell, GAP);
    if p < 0 then None
    else if p == 0 then Some(" ")
    else if p <= |cell| then Some(cell[..p]) else None
  }

  /** The old value is what stands before the first gap, a space if nothing does. */
  lemma OldValueExactly(cell: string)
    ensures OldValue(cell).None? <==> !Contains(cell, GAP)
    ensures GAP <= cell ==> OldValue(cell) == Some(" ")
    ensures OldValue(cell).Some? && !(GAP <= cell) ==>
      var v := OldValue(cell).value; v + GAP <= cell && forall q: nat :: q < |v| ==> !At(cell, GAP, q)
  {
    IndexIs(cell, GAP);
    var p := Index(cell, GAP);
    if p >= 0 {
      assert cell[..p + |GAP|] == cell[..p] + cell[p..p + |GAP|];
    }
    if GAP <= cell {
      assert At(cell, GAP, 0);
    }
  }

  /** What a rollback writes: the old value, padded with spaces to the length of the new one. */
  function Padded(earlier: string, later: string): string {
    if |earlier| < |later| then earlier + Repeat(' ', |later| - |earlier|) else earlier
  }

  predicate Blank(s: string) {
    forall i :: 0 <= i < |s| ==> s[i] == ' '
  }

  /** A value that the update handler stores without losing the gap. */
  ghost predicate ValidValue(v: string) {
    0 < |v| <= BLOCK - |GAP| && !Contains(v, GAP) && v[|v| - 1] != ' '
  }

  /** A value, and spaces up to the end of the cell. */
  ghost predicate Canonical(cell: string) {
    |cell| == BLOCK && 0 <= Index(cell, GAP) <= BLOCK - |GAP| && Blank(cell[Index(cell, GAP)..])
  }

  lemma GapAt(cell: string, p: int)
    ensures At(cell, GAP, p) <==> 0 <= p && p + 5 <= |cell| && Blank(cell[p..p + 5])
  {
    if 0 <= p && p + 5 <= |cell| && Blank(cell[p..p + 5]) {
      assert forall i :: 0 <= i < 5 ==> cell[p..p + 5][i] == GAP[i];
    }
  }

  lemma OverlayNoGap(cell: string, v: string, q: int)
    requires Canonical(cell) && ValidValue(v) && 0 <= q < (if |v| >= Index(cell, GAP) then |v| else Index(cell, GAP))
    ensures !At(Overlay(cell, v), GAP, q)
  {
    var p := Index(cell, GAP);
    var c := Overlay(cell, v);
    GapAt(c, q);
    if q + 5 <= |v| {
      assert !At(v, GAP, q);
      assert c[q..q + 5] == v[q..q + 5];
    } else if q < |v| {
      assert q + 5 <= |c| ==> c[q..q + 5][|v| - 1 - q] != ' ';
    } else {
      IndexIs(cell, GAP);
      assert !At(cell, GAP, q);
      assert q + 5 <= |c| ==> c[q..q + 5] == cell[q..q + 5];
    }
  }

  /** An update keeps the form of the cell. */
  lemma OverlayCanonical(cell: string, v: string)
    requires Canonical(cell) && ValidValue(v)
    ensures Canonical(Overlay(cell, v))
  {
    var p := Index(cell, GAP);
    var c := Overlay(cell, v);
    var p' := if |v| >= p then |v| else p;
    assert forall i :: p <= i < |cell| ==> cell[i] == cell[p..][i - p];
    assert Blank(c[p'..]);
    assert c[p'..p' + 5] == c[p'..][..5];
    GapAt(c, p');
    assert At(c, GAP, p');
    forall q | 0 <= q < p' ensures !At(c, GAP, q) {
      OverlayNoGap(cell, v, q);
    }
    IndexUnique(c, GAP, p');
  }

  /** Undoing an update restores the cell byte for byte if and only if the cell holds nothing but
      spaces from its gap to the end of the new value. */
  lemma RestoreExact(cell: string, v: string)
    requires |v| <= |cell| && OldValue(cell).Some?
    ensures var earlier := OldValue(cell).value;
      && |Padded(earlier, v)| <= |cell|
      && (Overlay(Overlay(cell, v), Padded(earlier, v)) == cell <==>
          Blank(cell[Index(cell, GAP)..if |v| > Index(cell, GAP) then |v| else Index(cell, GAP)]))
  {
    var p := Index(cell, GAP);
    IndexIs(cell, GAP);
    GapAt(cell, p);
    var pad := Padded(OldValue(cell).value, v);
    var restored := Overlay(Overlay(cell, v), pad);
    var end := if |v| > p then |v| else p;
    assert |restored| == |cell|;
    assert forall i :: |pad| <= i < |cell| ==> restored[i] == cell[i];
    assert forall i :: 0 <= i < |pad| ==> restored[i] == pad[i];
    if Blank(cell[p..end]) {
      assert forall i :: p <= i < end ==> cell[i] == cell[p..end][i - p];
      if p == 0 {
        assert cell[0] == cell[0..5][0];
      }
      forall i | 0 <= i < |cell| ensures restored[i] == cell[i] {}
    } else {
      var i :| 0 <= i < |cell[p..end]| && cell[p..end][i] != ' ';
      assert cell[p + i] != ' ';
      assert p + i < |pad| && pad[p + i] == ' ';
    }
  }

  /** A value with a gap of its own: after it and a longer value are written to a blank cell, undoing the
      longer one leaves only what stood in front of the gap. */
  lemma GapValueLost()
    ensures var cell := Overlay(Repeat(' ', BLOCK), "a      b"); var later := "123456789";
      && OldValue(cell) == Some("a")
      && Overlay(Overlay(cell, later), Padded("a", later)) == "a" + Repeat(' ', BLOCK - 1) != cell
  {
    var cell, later := Overlay(Repeat(' ', BLOCK), "a      b"), "123456789";
    GapAt(cell, 0);
    assert cell[0..5][0] == 'a';
    GapAt(cell, 1);
    assert cell[1..6] == GAP;
    IndexUnique(cell, GAP, 1);
    assert cell[..1] == "a";
    var pad := Padded("a", later);
    var undone := Overlay(Overlay(cell, later), pad);
    assert undone == pad + cell[9..];
    assert undone == "a" + Repeat(' ', BLOCK - 1);
    assert cell[7] == 'b' && undone[7] == ' ';
  }

  /** Undoing an update of a cell in its usual form restores it. */
  lemma RestoreCanonical(cell: string, v: string)
    requires Canonical(cell) && ValidValue(v)
    ensures OldValue(cell).Some? && |Padded(OldValue(cell).value, v)| <= |cell|
    ensures Overlay(Overlay(cell, v), Padded(OldValue(cell).value, v)) == cell
  {
    var p := Index(cell, GAP);
    assert forall i :: p <= i < |cell| ==> cell[i] == cell[p..][i - p];
    RestoreExact(cell, v);
  }

  // ----- every run of updates and rollbacks -----

  /** What a cell held before and after an update. */
  datatype Snap = Snap(before: string, after: string)

  type Cells = CellId -> string

  function Written(cells: Cells, x: CellId, content: string): Cells {
    (c: CellId) => if c == x then content else cells(c)
  }

  /** The content of cell x once the stack's elements from k on are undone, latest first. */
  ghost function Below(log: seq<Record>, snaps: seq<Snap>, s: seq<nat>, k: nat, x: CellId, now: string): string
    requires |snaps| == |log| && forall j :: 0 <= j < |s| ==> s[j] < |log| && log[s[j]].Update?
    decreases |s| - k
  {
    if k >= |s| then now
    else if log[s[k]].cell == x then snaps[s[k]].before
    else Below(log, snaps, s, k + 1, x, now)
  }

  /** An update's snapshot fits what it logged. */
  ghost predicate SnapFits(r: Record, snap: Snap) {
    r.Update? ==>
      && Canonical(snap.before) && ValidValue(r.after) && OldValue(snap.before) == Some(r.before)
      && snap.after == Overlay(snap.before, r.after)
  }

  /** Unless another user changed the cell, undoing what is above the k-th element of the user's
      stack shows the cell as that update left it. */
  ghost predicate Undoable(log: seq<Record>, snaps: seq<Snap>, cells: Cells, user: string, file: string, k: nat) {
    var s := Stack(log, user, file);
    && |snaps| == |log| && Ordered(log, s, user, file)
    && (k < |s| && !Conflict(log, s[k]) ==>
         Below(log, snaps, s, k + 1, log[s[k]].cell, cells(log[s[k]].cell)) == snaps[s[k]].after)
  }

  ghost predicate Consistent(log: seq<Record>, snaps: seq<Snap>, cells: Cells) {
    && |snaps| == |log|
    && (forall i :: 0 <= i < |log| ==> SnapFits(log[i], snaps[i]))
    && (forall x :: Canonical(cells(x)))
    && (forall user, file, k: nat :: Undoable(log, snaps, cells, user, file, k))
  }

  lemma StackGrows(log: seq<Record>, r: Record, user: string, file: string)
    ensures var s := Stack(log, user, file);
      Stack(log + [r], user, file) ==
        if Pushes(r, user, file) then s + [|log|] else if Pops(r, user, file) && s != [] then s[..|s| - 1] else s
  {
    assert (log + [r])[..|log|] == log;
  }

  lemma ConflictGrows(log: seq<Record>, r: Record, t: nat)
    requires t < |log| && log[t].Update?
    ensures Conflict(log + [r], t) <==> Conflict(log, t) || (r.Update? && r.user != log[t].user && r.cell == log[t].cell)
  {
    var log' := log + [r];
    if Conflict(log, t) {
      var i: nat :| ConflictAt(log, t, i);
      assert ConflictAt(log', t, i);
    }
    if r.Update? && r.user != log[t].user && r.cell == log[t].cell {
      assert ConflictAt(log', t, |log|);
    }
    if Conflict(log', t) {
      var i: nat :| ConflictAt(log', t, i);
      assert i < |log| ==> ConflictAt(log, t, i);
    }
  }

  /** The view through the stack does not depend on what follows in the log. */
  lemma {:induction false} BelowGrows(log: seq<Record>, snaps: seq<Snap>, r: Record, snap: Snap, s: seq<nat>, k: nat, x: CellId, now: string)
    requires |snaps| == |log| && forall j :: 0 <= j < |s| ==> s[j] < |log| && log[s[j]].Update?
    ensures Below(log + [r], snaps + [snap], s, k, x, now) == Below(log, snaps, s, k, x, now)
    decreases |s| - k
  {
    if k < |s| {
      BelowGrows(log, snaps, r, snap, s, k + 1, x, now);
    }
  }

  /** A new top of the stack shows its own cell as it was before, and the others as they are. */
  lemma {:induction false} BelowPush(log: seq<Record>, snaps: seq<Snap>, s: seq<nat>, n: nat, k: nat, x: CellId, now: string)
    requires |snaps| == |log| && forall j :: 0 <= j < |s| ==> s[j] < |log| && log[s[j]].Update?
    requires n < |log| && log[n].Update? && k <= |s|
    ensures Below(log, snaps, s + [n], k, x, now) ==
            Below(log, snaps, s, k, x, if log[n].cell == x then snaps[n].before else now)
    decreases |s| - k
  {
    if k < |s| {
      BelowPush(log, snaps, s, n, k + 1, x, now);
    }
  }

  /** An update of a canonical cell with a valid value. */
  lemma UpdateKeeps(log: seq<Record>, snaps: seq<Snap>, cells: Cells, user: string, x: CellId, value: string)
    requires Consistent(log, snaps, cells) && ValidValue(value)
    ensures OldValue(cells(x)).Some?
    ensures var after := Overlay(cells(x), value);
      Consistent(log + [Update(user, x, OldValue(cells(x)).value, value)], snaps + [Snap(cells(x), after)], Written(cells, x, after))
  {
    assert Canonical(cells(x));
    var before, after := cells(x), Overlay(cells(x), value);
    OverlayCanonical(before, value);
    var r, snap := Update(user, x, OldValue(before).value, value), Snap(before, after);
    var log', snaps', cells' := log + [r], snaps + [snap], Written(cells, x, after);
    forall u, file, k: nat ensures Undoable(log', snaps', cells', u, file, k) {
      UpdateUndoable(log, snaps, cells, r, snap, u, file, k);
    }
    forall y ensures Canonical(cells'(y)) {
      assert Canonical(cells(y));
    }
  }

  lemma UpdateUndoable(log: seq<Record>, snaps: seq<Snap>, cells: Cells, r: Record, snap: Snap, user: string, file: string, k: nat)
    requires |snaps| == |log| && Undoable(log, snaps, cells, user, file, k)
    requires r.Update? && snap.before == cells(r.cell)
    ensures Undoable(log + [r], snaps + [snap], Written(cells, r.cell, snap.after), user, file, k)
  {
    var log', snaps', cells' := log + [r], snaps + [snap], Written(cells, r.cell, snap.after);
    var s, s' := Stack(log, user, file), Stack(log', user, file);
    StackGrows(log, r, user, file);
    StackOrdered(log', user, file);
    if k < |s| && !Conflict(log', s[k]) {
      var y := log[s[k]].cell;
      ConflictGrows(log, r, s[k]);
      BelowGrows(log, snaps, r, snap, s, k + 1, y, cells(y));
      BelowGrows(log, snaps, r, snap, s, k + 1, y, cells'(y));
      if Pushes(r, user, file) {
        BelowPush(log', snaps', s, |log|, k + 1, y, cells'(y));
      }
    }
  }

  /** A rollback that found its target free of conflicts. */
  lemma RollbackKeeps(log: seq<Record>, snaps: seq<Snap>, cells: Cells, user: string, file: string)
    requires Consistent(log, snaps, cells)
    requires var s := Stack(log, user, file); s != [] && s[|s| - 1] < |log| && !Conflict(log, s[|s| - 1])
    ensures var s := Stack(log, user, file); log[s[|s| - 1]].Update?
    ensures var s := Stack(log, user, file);
      var t := s[|s| - 1]; var x := log[t].cell;
      && cells(x) == snaps[t].after
      && |Padded(log[t].before, log[t].after)| <= |cells(x)|
      && Overlay(cells(x), Padded(log[t].before, log[t].after)) == snaps[t].before
      && Consistent(log + [Rollback(user, file)], snaps + [Snap("", "")], Written(cells, x, snaps[t].before))
  {
    hide Stack, Conflict, Undoable, Canonical, SnapFits, Overlay, Padded;
    RollbackTarget(log, snaps, cells, user, file);
    var s := Stack(log, user, file);
    var t := s[|s| - 1];
    var x := log[t].cell;
    var log', snaps', cells' := log + [Rollback(user, file)], snaps + [Snap("", "")], Written(cells, x, snaps[t].before);
    forall u, f, k: nat ensures Undoable(log', snaps', cells', u, f, k) {
      assert Undoable(log, snaps, cells, u, f, k);
      RollbackUndoable(log, snaps, cells, user, file, u, f, k);
    }
    forall y ensures Canonical(cells'(y)) {
      assert Canonical(cells(y));
    }
    OtherFits(Rollback(user, file), Snap("", ""));
  }

  lemma OtherFits(r: Record, snap: Snap)
    requires !r.Update?
    ensures SnapFits(r, snap)
  {}

  /** What the target's cell holds, and what writing the padded old value makes of it. */
  lemma RollbackTarget(log: seq<Record>, snaps: seq<Snap>, cells: Cells, user: string, file: string)
    requires Consistent(log, snaps, cells)
    requires var s := Stack(log, user, file); s != [] && s[|s| - 1] < |log| && !Conflict(log, s[|s| - 1])
    ensures var s := Stack(log, user, file); Ordered(log, s, user, file) && log[s[|s| - 1]].Update?
    ensures var s := Stack(log, user, file);
      var t := s[|s| - 1]; var x := log[t].cell;
      && cells(x) == snaps[t].after && Canonical(snaps[t].before)
      && |Padded(log[t].before, log[t].after)| <= |cells(x)|
      && Overlay(cells(x), Padded(log[t].before, log[t].after)) == snaps[t].before
  {
    hide Stack, Conflict, Canonical, Overlay, Padded;
    StackOrdered(log, user, file);
    var s := Stack(log, user, file);
    var t := s[|s| - 1];
    assert Undoable(log, snaps, cells, user, file, |s| - 1);
    assert SnapFits(log[t], snaps[t]);
    RestoreCanonical(snaps[t].before, log[t].after);
    OverlayLength(snaps[t].before, log[t].after);
  }

  lemma OverlayLength(cell: string, v: string)
    requires Canonical(cell) && ValidValue(v)
    ensures |v| <= |cell| && |Overlay(cell, v)| == |cell|
  {}

  lemma RollbackUndoable(log: seq<Record>, snaps: seq<Snap>, cells: Cells, user: string, file: string, u: string, f: string, k: nat)
    requires |snaps| == |log| && Undoable(log, snaps, cells, u, f, k)
    requires var s := Stack(log, user, file); s != [] && Ordered(log, s, user, file) && !Conflict(log, s[|s| - 1])
    ensures var s := Stack(log, user, file);
      var t := s[|s| - 1];
      Undoable(log + [Rollback(user, file)], snaps + [Snap("", "")], Written(cells, log[t].cell, snaps[t].before), u, f, k)
  {
    if (u, f) == (user, file) {
      RollbackOwn(log, snaps, cells, user, file, k);
    } else {
      RollbackOther(log, snaps, cells, user, file, u, f, k);
    }
  }

  /** The undone update leaves the stack; below it everything looks the same. */
  lemma RollbackOwn(log: seq<Record>, snaps: seq<Snap>, cells: Cells, user: string, file: string, k: nat)
    requires |snaps| == |log| && Undoable(log, snaps, cells, user, file, k)
    requires Stack(log, user, file) != []
    ensures var s := Stack(log, user, file);
      var t := s[|s| - 1];
      Undoable(log + [Rollback(user, file)], snaps + [Snap("", "")], Written(cells, log[t].cell, snaps[t].before), user, file, k)
  {
    hide Stack, Conflict, Below;
    var s := Stack(log, user, file);
    var t := s[|s| - 1];
    var r, snap := Rollback(user, file), Snap("", "");
    var log', cells' := log + [r], Written(cells, log[t].cell, snaps[t].before);
    var s' := Stack(log', user, file);
    StackGrows(log, r, user, file);
    StackOrdered(log', user, file);
    if k < |s'| && !Conflict(log', s[k]) {
      var y := log[s[k]].cell;
      ConflictGrows(log, r, s[k]);
      assert s' + [t] == s;
      BelowPush(log, snaps, s', t, k + 1, y, cells(y));
      BelowGrows(log, snaps, r, snap, s', k + 1, y, cells'(y));
    }
  }

  /** Another stack has no conflict-free element on the cell that the rollback writes. */
  lemma RollbackOther(log: seq<Record>, snaps: seq<Snap>, cells: Cells, user: string, file: string, u: string, f: string, k: nat)
    requires |snaps| == |log| && Undoable(log, snaps, cells, u, f, k) && (u, f) != (user, file)
    requires var s := Stack(log, user, file); s != [] && Ordered(log, s, user, file) && !Conflict(log, s[|s| - 1])
    ensures var s := Stack(log, user, file);
      var t := s[|s| - 1];
      Undoable(log + [Rollback(user, file)], snaps + [Snap("", "")], Written(cells, log[t].cell, snaps[t].before), u, f, k)
  {
    var top := Stack(log, user, file);
    var t := top[|top| - 1];
    var r, snap := Rollback(user, file), Snap("", "");
    var log', cells' := log + [r], Written(cells, log[t].cell, snaps[t].before);
    var s := Stack(log, u, f);
    StackGrows(log, r, u, f);
    StackOrdered(log', u, f);
    if k < |s| && !Conflict(log', s[k]) {
      var y := log[s[k]].cell;
      ConflictGrows(log, r, s[k]);
      OtherCell(log, t, s[k]);
      BelowGrows(log, snaps, r, snap, s, k + 1, y, cells'(y));
    }
  }

  /** Updates of one cell by two users conflict, whichever came first. */
  lemma OtherCell(log: seq<Record>, t: nat, i: nat)
    requires t < |log| && i < |log| && log[t].Update? && log[i].Update?
    requires log[t].user != log[i].user || log[t].cell.file != log[i].cell.file
    requires !Conflict(log, t) && !Conflict(log, i)
    ensures log[t].cell != log[i].cell
  {
    assert !ConflictAt(log, t, i) && !ConflictAt(log, i, t);
  }

  /** A log entry of another handler. */
  lemma OtherKeeps(log: seq<Record>, snaps: seq<Snap>, cells: Cells)
    requires Consistent(log, snaps, cells)
    ensures Consistent(log + [Other], snaps + [Snap("", "")], cells)
  {
    forall u, f, k: nat ensures Undoable(log + [Other], snaps + [Snap("", "")], cells, u, f, k) {
      assert Undoable(log, snaps, cells, u, f, k);
      OtherUndoable(log, snaps, cells, u, f, k);
    }
  }

  lemma OtherUndoable(log: seq<Record>, snaps: seq<Snap>, cells: Cells, user: string, file: string, k: nat)
    requires |snaps| == |log| && Undoable(log, snaps, cells, user, file, k)
    ensures Undoable(log + [Other], snaps + [Snap("", "")], cells, user, file, k)
  {
    var s := Stack(log, user, file);
    StackGrows(log, Other, user, file);
    StackOrdered(log + [Other], user, file);
    if k < |s| && !Conflict(log + [Other], s[k]) {
      var y := log[s[k]].cell;
      ConflictGrows(log, Other, s[k]);
      BelowGrows(log, snaps, Other, Snap("", ""), s, k + 1, y, cells(y));
    }
  }
}
