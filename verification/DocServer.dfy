/**
 The document backend's update and rollback handlers over stored files. A document is one flat
 file of 84 rows of 60 cells of 80 bytes; the log is a text file that starts with its length.
 */
module DocServer {
  import opened Common
  import opened Text
  import opened UndoLog
  import opened LogText
  import opened Locks

  const LOG: string := "gDocLog"

  // ----- cells in a document -----

  function Position(row: nat, col: nat): nat {
    row * COLS * BLOCK + col * BLOCK
  }

  predicate InGrid(files: map<string, string>, c: CellId) {
    c.file in files && c.file != LOG && |files[c.file]| == SIZE && c.row < ROWS && c.col < COLS
  }

  lemma PositionFits(row: nat, col: nat)
    requires row < ROWS && col < COLS
    ensures Position(row, col) + BLOCK <= SIZE
  {}

  function CellAt(doc: string, row: nat, col: nat): string
    requires |doc| == SIZE && row < ROWS && col < COLS
  {
    PositionFits(row, col);
    doc[Position(row, col)..Position(row, col) + BLOCK]
  }

  /** What a cell holds; a cell of no document counts as blank. */
  function Content(files: map<string, string>, c: CellId): string {
    if InGrid(files, c) then CellAt(files[c.file], c.row, c.col) else Repeat(' ', BLOCK)
  }

  function Contents(files: map<string, string>): Cells {
    (c: CellId) => Content(files, c)
  }

  lemma CellsApart(row: nat, col: nat, row': nat, col': nat)
    requires col < COLS && col' < COLS && (row, col) != (row', col')
    ensures Position(row, col) + BLOCK <= Position(row', col') || Position(row', col') + BLOCK <= Position(row, col)
  {
    if row < row' {
      assert row' >= row + 1;
    } else if row' < row {
      assert row >= row' + 1;
    }
  }

  /** Writing at the start of a cell changes that cell and no other. */
  lemma WriteCell(doc: string, row: nat, col: nat, value: string, row': nat, col': nat)
    requires |doc| == SIZE && row < ROWS && col < COLS && row' < ROWS && col' < COLS && |value| <= BLOCK
    ensures Position(row, col) + |value| <= SIZE
    ensures var doc' := Splice(doc, Position(row, col), value);
      && |doc'| == SIZE
      && CellAt(doc', row', col') ==
         if (row, col) == (row', col') then Overlay(CellAt(doc, row, col), value) else CellAt(doc, row', col')
  {
    PositionFits(row, col);
    PositionFits(row', col');
    var p, p' := Position(row, col), Position(row', col');
    var doc' := Splice(doc, p, value);
    assert |doc'| == SIZE;
    assert forall i :: 0 <= i < SIZE ==> doc'[i] == if p <= i < p + |value| then value[i - p] else doc[i];
    if (row, col) == (row', col') {
      assert doc'[p..p + BLOCK] == Overlay(doc[p..p + BLOCK], value);
    } else {
      CellsApart(row, col, row', col');
      assert doc'[p'..p' + BLOCK] == doc[p'..p' + BLOCK];
    }
  }

  lemma WriteContents(files: map<string, string>, x: CellId, value: string)
    requires InGrid(files, x) && |value| <= BLOCK
    ensures Position(x.row, x.col) + |value| <= SIZE
    ensures |Content(files, x)| == BLOCK
    ensures var files' := files[x.file := Splice(files[x.file], Position(x.row, x.col), value)];
      && (forall c :: Content(files', c) == if c == x then Overlay(Content(files, x), value) else Content(files, c))
      && (forall c :: InGrid(files, c) <==> InGrid(files', c))
  {
    PositionFits(x.row, x.col);
    var files' := files[x.file := Splice(files[x.file], Position(x.row, x.col), value)];
    WriteCell(files[x.file], x.row, x.col, value, x.row, x.col);
    forall c ensures Content(files', c) == if c == x then Overlay(Content(files, x), value) else Content(files, c) {
      if c.file == x.file && c.row < ROWS && c.col < COLS {
        WriteCell(files[x.file], x.row, x.col, value, c.row, c.col);
      }
    }
  }

  // ----- the log file -----

  function LogLength(lines: seq<string>): nat {
    9 + |Join(lines)|
  }

  /** The file starts with the length in eight digits, a tab, and the lines. */
  ghost predicate LogFile(text: string, lines: seq<string>) {
    var n := LogLength(lines);
    n < Pow10(8) && |text| >= n && text[..n] == NumExtend(n, 8) + "\t" + Join(lines)
  }

  lemma LogHeader(text: string, lines: seq<string>)
    requires LogFile(text, lines)
    ensures |text| >= 9 && Atoi(text[0..8]) == LogLength(lines)
    ensures text[..LogLength(lines)][9..] == Join(lines)
  {
    var n := LogLength(lines);
    assert text[0..8] == text[..n][0..8] == NumExtend(n, 8);
    AtoiNumExtend(n, 8);
  }

  /** Replacing the head of a text and writing behind its body. */
  lemma AppendText(text: string, head: string, body: string, head': string, data: string)
    requires |head| == |head'| && |head| + |body| <= |text|
    ensures var n := |head| + |body|;
      text[..n] == head + body ==>
        && |Splice(text, 0, head')| >= n
        && |Splice(Splice(text, 0, head'), n, data)| >= n + |data|
        && Splice(Splice(text, 0, head'), n, data)[..n + |data|] == head' + body + data
  {
    var n := |head| + |body|;
    if text[..n] == head + body {
      var t1 := Splice(text, 0, head');
      assert t1[..n] == head' + text[..n][|head|..];
      assert text[..n][|head|..] == body;
      var t2 := Splice(t1, n, data);
      assert t2[..n + |data|] == t1[..n] + data;
    }
  }

  lemma AppendLine(text: string, lines: seq<string>, line: string)
    requires LogFile(text, lines) && LogLength(lines) + |line| + 1 < Pow10(8)
    ensures var n := LogLength(lines);
      && |Splice(text, 0, NumExtend(n + |line| + 1, 8))| >= n
      && LogFile(Splice(Splice(text, 0, NumExtend(n + |line| + 1, 8)), n, line + "\t"), lines + [line])
  {
    hide Splice, NumExtend, Join;
    var n := LogLength(lines);
    var n' := n + |line| + 1;
    JoinPush(lines, line);
    AppendText(text, NumExtend(n, 8), "\t" + Join(lines), NumExtend(n', 8), line + "\t");
    assert text[..n] == NumExtend(n, 8) + ("\t" + Join(lines));
    assert NumExtend(n', 8) + ("\t" + Join(lines)) + (line + "\t") == NumExtend(n', 8) + "\t" + Join(lines + [line]);
  }

  lemma JoinPush(lines: seq<string>, line: string)
    ensures Join(lines + [line]) == Join(lines) + (line + "\t")
  {
    assert (lines + [line])[..|lines|] == lines;
  }

  /** The log text reads back as the records. */
  ghost predicate LogHolds(files: map<string, string>, lines: seq<string>, log: seq<Record>) {
    && LOG in files && LogFile(files[LOG], lines) && |lines| == |log|
    && forall i :: 0 <= i < |log| ==> '\t' !in lines[i] && ParseLine(lines[i]) == Some(log[i]) && Loggable(log[i])
  }

  // ----- finding the target -----

  /** Another user's update of the file. */
  predicate Foreign(r: Record, user: string, file: string) {
    r.Update? && r.user != user && r.cell.file == file
  }

  /** The places that other users changed in the file, from index n of the log on. */
  ghost predicate Collects(log: seq<Record>, n: nat, user: string, file: string, rcs: seq<(nat, nat)>) {
    && (forall i :: n <= i < |log| && Foreign(log[i], user, file) ==> (log[i].cell.row, log[i].cell.col) in rcs)
    && (forall rc :: rc in rcs ==>
         exists i :: n <= i < |log| && Foreign(log[i], user, file) && (log[i].cell.row, log[i].cell.col) == rc)
  }

  lemma CollectsNone(log: seq<Record>, user: string, file: string)
    ensures Collects(log, |log|, user, file, [])
  {}

  lemma CollectsStep(log: seq<Record>, n: nat, user: string, file: string, rcs: seq<(nat, nat)>)
    requires n < |log| && Collects(log, n + 1, user, file, rcs)
    ensures Foreign(log[n], user, file) ==> Collects(log, n, user, file, rcs + [(log[n].cell.row, log[n].cell.col)])
    ensures !Foreign(log[n], user, file) ==> Collects(log, n, user, file, rcs)
  {
    if Foreign(log[n], user, file) {
      var rcs' := rcs + [(log[n].cell.row, log[n].cell.col)];
      forall rc | rc in rcs'
        ensures exists i :: n <= i < |log| && Foreign(log[i], user, file) && (log[i].cell.row, log[i].cell.col) == rc
      {
        if rc in rcs {
          var i :| n + 1 <= i < |log| && Foreign(log[i], user, file) && (log[i].cell.row, log[i].cell.col) == rc;
        } else {
          assert Foreign(log[n], user, file);
        }
      }
    }
  }

  /** The loop of the rollback handler: scans the lines backwards for the update to undo, and collects
      the places that other users changed since. */
  method FindTarget(strSlice: seq<string>, user: string, file: string, ghost log: seq<Record>)
    returns (aim: Option<Record>, rcSlice: seq<(nat, nat)>, ghost t: nat)
    requires |strSlice| == |log| + 1
    requires forall i :: 0 <= i < |log| ==> ParseLine(strSlice[i]) == Some(log[i])
    ensures aim == None <==> Scan(log, |log|, user, file, 0) == None
    ensures aim.Some? ==> t < |log| && Scan(log, |log|, user, file, 0) == Some(t) && aim.value == log[t]
    ensures aim.Some? ==> Collects(log, t + 1, user, file, rcSlice)
  {
    hide Collects, ParseLine, Scan, Pushes, Pops, Foreign;
    aim, rcSlice, t := None, [], 0;
    CollectsNone(log, user, file);
    var skipNum := 0;
    var i := |strSlice| - 1;
    while i > 0
      invariant 0 <= i <= |log|
      invariant Scan(log, i, user, file, skipNum) == Scan(log, |log|, user, file, 0)
      invariant Collects(log, i, user, file, rcSlice)
    {
      i := i - 1;
      CollectsStep(log, i, user, file, rcSlice);
      ScanStep(log, i, user, file, skipNum);
      var r := ParseLine(strSlice[i]).value;
      OneKind(r, user, file);
      if Pushes(r, user, file) {
        if skipNum == 0 {
          aim, t := Some(r), i;
          return;
        } else {
          skipNum := skipNum - 1;
        }
      } else if Foreign(r, user, file) {
        rcSlice := rcSlice + [(r.cell.row, r.cell.col)];
      } else if Pops(r, user, file) {
        skipNum := skipNum + 1;
      }
    }
    ScanStart(log, user, file, skipNum);
  }

  lemma OneKind(r: Record, user: string, file: string)
    ensures Foreign(r, user, file) ==> r.Update?
    ensures !(Pushes(r, user, file) && Foreign(r, user, file))
    ensures !(Pushes(r, user, file) && Pops(r, user, file))
    ensures !(Foreign(r, user, file) && Pops(r, user, file))
  {}

  lemma ScanStep(log: seq<Record>, n: nat, user: string, file: string, skip: nat)
    requires n < |log|
    ensures Scan(log, n + 1, user, file, skip) ==
      if Pushes(log[n], user, file) then (if skip == 0 then Some(n) else Scan(log, n, user, file, skip - 1))
      else Scan(log, n, user, file, if Pops(log[n], user, file) then skip + 1 else skip)
  {}

  lemma ScanStart(log: seq<Record>, user: string, file: string, skip: nat)
    ensures Scan(log, 0, user, file, skip) == None
  {}

  /** The collected places show a conflict exactly when the log has one. */
  lemma CollectedConflict(log: seq<Record>, t: nat, user: string, file: string, rcs: seq<(nat, nat)>)
    requires t < |log| && Pushes(log[t], user, file) && Collects(log, t + 1, user, file, rcs)
    ensures Conflict(log, t) <==> (log[t].cell.row, log[t].cell.col) in rcs
  {
    if Conflict(log, t) {
      var i: nat :| ConflictAt(log, t, i);
      assert Foreign(log[i], user, file);
    }
    if (log[t].cell.row, log[t].cell.col) in rcs {
      var i :| t + 1 <= i < |log| && Foreign(log[i], user, file)
               && (log[i].cell.row, log[i].cell.col) == (log[t].cell.row, log[t].cell.col);
      assert ConflictAt(log, t, i);
    }
  }

  // ----- the handlers -----

  /** What a rollback answers; `Silent` when the log is empty. */
  datatype Reply = Silent | NothingFound | Conflicting | Locked | Restored(cell: CellId)

  /** What an edit answers: everyone is told, or the editor learns who has the lock. */
  datatype EditReply = Told | Refused(owner: string)

  /** A value longer than a cell is cut. */
  function Cut(value: string): string {
    if |value| > BLOCK then value[..BLOCK] else value
  }

  lemma CutWritten(cell: string, value: string)
    requires |cell| == BLOCK
    ensures Overlay(cell, Cut(value)) == if |value| >= BLOCK then value[..BLOCK] else value + cell[|value|..]
  {
    assert |value| == BLOCK ==> value[..BLOCK] == value;
  }

  /** The gap that the update handler looks for is gone after a value of more than 75 bytes, unless the value has
      one, or ends in spaces that make one with the rest of the cell. Every later update of the cell crashes. */
  lemma StuckExactly(cell: string, value: string)
    requires Canonical(cell)
    ensures OldValue(Overlay(cell, Cut(value))).None? <==>
      |value| > BLOCK - |GAP| && !Contains(Cut(value) + Repeat(' ', BLOCK - |Cut(value)|), GAP)
  {
    var cut := Cut(value);
    var after := Overlay(cell, cut);
    OldValueExactly(after);
    var p := Index(cell, GAP);
    assert forall i :: p <= i < BLOCK ==> cell[i] == cell[p..][i - p] == ' ';
    if |value| > BLOCK - |GAP| {
      assert after == cut + Repeat(' ', BLOCK - |cut|);
    } else {
      GapAt(after, BLOCK - |GAP|);
      assert Blank(after[BLOCK - |GAP|..BLOCK - |GAP| + 5]);
      assert At(after, GAP, BLOCK - |GAP|);
    }
  }

  /** The log has room for one more line. */
  ghost predicate Room(lines: seq<string>, line: string) {
    LogLength(lines) + |line| + 1 < Pow10(8)
  }

  /** The update's line can be written and read back. */
  ghost predicate CanLog(lines: seq<string>, time: string, r: Record) {
    r.Update? && PlainTime(time) && Loggable(r) && Room(lines, UpdateLine(time, r))
  }

  lemma HoldsMore(files: map<string, string>, lines: seq<string>, log: seq<Record>, files': map<string, string>, line: string, r: Record)
    requires LogHolds(files, lines, log)
    requires LOG in files' && LogFile(files'[LOG], lines + [line]) && '\t' !in line && ParseLine(line) == Some(r) && Loggable(r)
    ensures LogHolds(files', lines + [line], log + [r])
  {
    hide ParseLine, Loggable, LogFile;
  }

  /** A loggable update can be logged. */
  lemma UpdateLogs(time: string, r: Record)
    requires r.Update? && PlainTime(time) && Loggable(r)
    ensures '\t' !in UpdateLine(time, r) && ParseLine(UpdateLine(time, r)) == Some(r)
  {
    hide ParseLine, Readable;
    ParseUpdateLine(time, r);
    assert Digits(Itoa(r.cell.row)) && Digits(Itoa(r.cell.col));
  }

  /** Files that agree on the documents agree on the cells. */
  lemma SameDocuments(files: map<string, string>, files': map<string, string>)
    requires forall f :: f != LOG ==> (f in files <==> f in files') && (f in files ==> files[f] == files'[f])
    ensures forall c :: Content(files, c) == Content(files', c) && (InGrid(files, c) <==> InGrid(files', c))
  {}

  /** `Consistent` depends only on what the cells hold. */
  lemma SameCells(log: seq<Record>, snaps: seq<Snap>, cells: Cells, cells': Cells)
    requires Consistent(log, snaps, cells) && forall c :: cells(c) == cells'(c)
    ensures Consistent(log, snaps, cells')
  {
    forall user, file, k: nat ensures Undoable(log, snaps, cells', user, file, k) {
      assert Undoable(log, snaps, cells, user, file, k);
    }
    forall x ensures Canonical(cells'(x)) {
      assert Canonical(cells(x));
    }
  }

  ghost predicate AllInGrid(files: map<string, string>, log: seq<Record>) {
    forall i :: 0 <= i < |log| && log[i].Update? ==> InGrid(files, log[i].cell)
  }

  /** The cell x now holds `content`, and everything else is as before. */
  ghost predicate Changes(files: map<string, string>, files': map<string, string>, x: CellId, content: string) {
    forall c :: Content(files', c) == (if c == x then content else Content(files, c)) && (InGrid(files, c) <==> InGrid(files', c))
  }

  /** An update keeps the log and the documents in agreement. */
  lemma UpdateAgrees(files: map<string, string>, files': map<string, string>, log: seq<Record>, snaps: seq<Snap>,
                     user: string, x: CellId, value: string)
    requires Consistent(log, snaps, Contents(files)) && AllInGrid(files, log) && InGrid(files, x) && ValidValue(value)
    requires |Content(files, x)| == BLOCK && Changes(files, files', x, Overlay(Content(files, x), value))
    ensures OldValue(Content(files, x)).Some?
    ensures var r := Update(user, x, OldValue(Content(files, x)).value, value);
      && AllInGrid(files', log + [r])
      && Consistent(log + [r], snaps + [Snap(Content(files, x), Overlay(Content(files, x), value))], Contents(files'))
  {
    hide Consistent, Content, OldValue;
    assert Contents(files)(x) == Content(files, x);
    UpdateKeeps(log, snaps, Contents(files), user, x, value);
    var cell := Content(files, x);
    var r := Update(user, x, OldValue(cell).value, value);
    SameCells(log + [r], snaps + [Snap(cell, Overlay(cell, value))], Written(Contents(files), x, Overlay(cell, value)), Contents(files'));
  }

  class Server {
    var files: map<string, string>    // what the file system stores
    var lockMap: map<string, string>  // which cells are being edited, and by whom
    ghost var edits: seq<Edit>        // the locks taken and freed so far
    ghost var lines: seq<string>      // the lines of the log
    ghost var log: seq<Record>        // what they say
    ghost var snaps: seq<Snap>        // what the updated cells held before and after each update

    /** Every handler keeps this: the log can be read back, it agrees with the documents, and the lock map has
        exactly the locks that are held. */
    ghost predicate Valid()
      reads this
    {
      && LogHolds(files, lines, log) && Consistent(log, snaps, Contents(files)) && AllInGrid(files, log)
      && LocksHold(lockMap, edits)
    }

    constructor ()
      ensures Valid() && log == [] && files.Keys == {LOG} && lockMap == map[] && edits == []
    {
      files := map[LOG := NumExtend(9, 8) + "\t"];
      lockMap := map[];
      edits, lines, log, snaps := [], [], [], [];
      new;
      assert Pow10(8) > 9 by { assert Pow10(2) == 100; GrowPow10(2, 8); }
      BlankCanonical();
      assert forall x :: Canonical(Contents(files)(x));
    }

    /** Appends a line to the log file. */
    method WriteLog(line: string, ghost r: Record)
      requires LogHolds(files, lines, log) && Room(lines, line)
      requires '\t' !in line && ParseLine(line) == Some(r) && Loggable(r)
      modifies this`files, this`lines, this`log
      ensures lines == old(lines) + [line] && log == old(log) + [r] && LogHolds(files, lines, log)
      ensures forall c :: Content(files, c) == old(Content(files, c)) && (InGrid(files, c) <==> old(InGrid(files, c)))
    {
      hide LogFile, ParseLine, Loggable, Content;
      LogHeader(files[LOG], lines);
      AppendLine(files[LOG], lines, line);
      var logData := line + "\t";
      var logLen := Atoi(files[LOG][0..8]);
      var newLogLen := logLen + |logData|;
      files := files[LOG := Splice(files[LOG], 0, NumExtend(newLogLen, 8))];
      files := files[LOG := Splice(files[LOG], logLen, logData)];
      HoldsMore(old(files), lines, log, files, line, r);
      SameDocuments(old(files), files);
      lines, log := lines + [line], log + [r];
    }

    /** Stores a cell's new value and logs it with the old one. A cell without a gap crashes the handler. */
    method HandleUpdate(user: string, x: CellId, newValue: string, time: string, hasNode: bool) returns (crashed: bool)
      requires LogHolds(files, lines, log) && InGrid(files, x)
      requires OldValue(Content(files, x)).Some? ==>
        CanLog(lines, time, Update(user, x, OldValue(Content(files, x)).value, Cut(newValue)))
      modifies this
      ensures crashed <==> old(OldValue(Content(files, x)).None?)
      ensures crashed ==> unchanged(this)
      ensures !crashed ==> LogHolds(files, lines, log)
      ensures !crashed ==> log == old(log) + [Update(user, x, old(OldValue(Content(files, x))).value, Cut(newValue))]
      ensures !crashed ==> |old(Content(files, x))| == BLOCK
      ensures !crashed ==> Changes(old(files), files, x, Overlay(old(Content(files, x)), Cut(newValue)))
      ensures !crashed ==>
        Content(files, x) == if |newValue| >= BLOCK then newValue[..BLOCK] else newValue + old(Content(files, x))[|newValue|..]
      ensures old(Valid()) && ValidValue(newValue) ==> !crashed && Valid()
      ensures lockMap == if crashed || !hasNode then old(lockMap) else old(lockMap) - {LockIndex(x)}
      ensures edits == if crashed || !hasNode then old(edits) else old(edits) + [Freed(x)]
      ensures old(LocksHold(lockMap, edits)) ==> LocksHold(lockMap, edits)
    {
      hide LocksHold, LockIndex, LogHolds, LogFile, Loggable, ParseLine, UpdateLine, OldValue, Content, Consistent, Room, AllInGrid, ValidValue;
      CellRead(files, x);
      var currPosition := Position(x.row, x.col);
      var cell := files[x.file][currPosition..currPosition + BLOCK];
      var oldValue := OldValue(cell);
      if Valid() {
        ConsistentHasOld(files, log, snaps, x);
      }
      if oldValue.None? {
        return true;
      }
      crashed := false;
      var writeValue := newValue;
      if |writeValue| > BLOCK {
        writeValue := writeValue[0..BLOCK];
      }
      var r := Update(user, x, oldValue.value, writeValue);
      ghost var log0, snaps0 := log, snaps;
      WriteContents(files, x, writeValue);
      DocumentKeepsLog(files, lines, log, x, writeValue);
      files := files[x.file := Splice(files[x.file], currPosition, writeValue)];
      if hasNode {
        Release(x);
      }
      UpdateLogs(time, r);
      CutWritten(cell, newValue);
      WriteLog(UpdateLine(time, r), r);
      snaps := snaps + [Snap(cell, Overlay(cell, writeValue))];
      if old(Valid()) && ValidValue(newValue) {
        ShortIsKept(newValue);
        UpdateAgrees(old(files), files, log0, snaps0, user, x, newValue);
      }
    }

    /** Gives a cell's lock back. */
    method Release(x: CellId)
      modifies this`lockMap, this`edits
      ensures lockMap == old(lockMap) - {LockIndex(x)} && edits == old(edits) + [Freed(x)]
      ensures old(LocksHold(lockMap, edits)) ==> LocksHold(lockMap, edits)
    {
      hide LocksHold, LockIndex;
      if LocksHold(lockMap, edits) {
        FreeKeeps(lockMap, edits, x);
      }
      lockMap := lockMap - {LockIndex(x)};
      edits := edits + [Freed(x)];
    }

    /** Undoes the user's latest update of the file that is not yet undone, unless another user changed
        the cell since or someone is editing it. */
    method HandleRollBack(user: string, file: string, time: string) returns (reply: Reply)
      requires Valid() && PlainTime(time) && Room(lines, RollbackLine(time, user, file))
      modifies this`files, this`lines, this`log, this`snaps
      ensures Valid()
      ensures reply == Silent <==> old(log) == []
      ensures reply == NothingFound <==> old(log) != [] && old(Stack(log, user, file)) == []
      ensures !reply.Restored? ==> unchanged(this)
      ensures old(Stack(log, user, file)) != [] ==>
        var s := old(Stack(log, user, file));
        var t := s[|s| - 1];
        && t < |old(log)| == |old(snaps)| && Pushes(old(log)[t], user, file)
        && var x := old(log)[t].cell;
        && (reply == Conflicting <==> Conflict(old(log), t))
        && (reply == Locked <==> !Conflict(old(log), t) && Holder(edits, x).Some?)
        && (reply.Restored? ==>
             && reply.cell == x && log == old(log) + [Rollback(user, file)]
             && old(Content(files, x)) == old(snaps)[t].after
             && Changes(old(files), files, x, old(snaps)[t].before))
    {
      hide LogHolds, Loggable, ParseLine, Content, Consistent, AllInGrid, Stack, Conflict, Collects, Changes, RollbackLine;
      hide LockIndex, LocksHold;
      ConsistentLengths(log, snaps, Contents(files));
      StackEmpty(user, file);
      ScanIsTop(log, user, file);
      var strSlice := ReadLog();
      if |strSlice| <= 1 {
        return Silent;
      }
      var aim, rcSlice, t := FindTarget(strSlice, user, file, log);
      if aim.None? {
        return NothingFound;
      }
      var x := aim.value.cell;
      CollectedConflict(log, t, user, file, rcSlice);
      var conflict := FindPlace(rcSlice, (x.row, x.col));
      if conflict {
        return Conflicting;
      }
      HolderLocks(lockMap, edits, x);
      if LockIndex(x) in lockMap {
        return Locked;
      }
      Restore(aim.value, time, user, file, t);
      return Restored(x);
    }

    /** A user begins to edit a cell. `hasNode` says whether the connection has a session with the lock service,
        `granted` what that service answers. */
    method HandleEdit(user: string, x: CellId, hasNode: bool, granted: bool) returns (reply: EditReply)
      requires Valid()
      modifies this`lockMap, this`edits
      ensures Valid()
      ensures edits == if hasNode && granted then old(edits) + [Took(x, user)] else old(edits)
      ensures reply == Told <==> !hasNode || granted
      ensures reply.Refused? ==> reply.owner == (if Holder(edits, x).Some? then Holder(edits, x).value else "")
    {
      hide LockIndex, Consistent, LogHolds, LocksHold, AllInGrid;
      HolderLocks(lockMap, edits, x);
      if hasNode {
        if granted {
          TakeKeeps(lockMap, edits, x, user);
          lockMap := lockMap[LockIndex(x) := user];
          edits := edits + [Took(x, user)];
        } else {
          return Refused(if LockIndex(x) in lockMap then lockMap[LockIndex(x)] else "");
        }
      }
      return Told;
    }

    /** Opens a document: its cells, and the locks that are reported with it. */
    method HandleOpen(user: string, file: string, time: string) returns (cells: seq<string>, locks: Option<seq<FileLock>>)
      requires Valid() && file in files && file != LOG && |files[file]| == SIZE
      requires Room(lines, OpenLine(time, user, file)) && '\t' !in time && '\t' !in user && '\t' !in file
      modifies this`files, this`lines, this`log, this`snaps
      ensures Valid() && log == old(log) + [Other]
      ensures forall c :: Content(files, c) == old(Content(files, c))
      ensures |cells| == ROWS * COLS
      ensures forall row: nat, col: nat :: row < ROWS && col < COLS && (row, col) != (ROWS - 1, COLS - 1) ==>
        var cell := Content(files, CellId(file, row, col)); cells[row * COLS + col] == if Blank(cell) then "" else cell
      ensures cells[ROWS * COLS - 1] == Content(files, CellId(file, ROWS - 1, COLS - 1))
      ensures (forall c :: Holder(edits, c).Some? ==> ShownRight(file, c)) ==>
        && locks.Some?
        && forall lock :: lock in locks.value <==>
             lock.file == file && Holder(edits, CellId(file, lock.row, lock.col)) == Some(lock.owner)
    {
      hide LockIndex, Consistent, LogHolds, LocksHold, AllInGrid, Content, Holder, Shows, Breaks, ShownRight, OpenLine;
      cells := OpenCells(files[file]);
      CellsShown(files, file, cells);
      OpenLineFits(time, user, file);
      LogOther(OpenLine(time, user, file));
      locks := ReportLocks(lockMap, file);
      LocksReported(lockMap, edits, file, locks);
    }

    /** A line that another handler logs: opening, creating, moving to the trash, recovering, clearing. */
    method LogOther(line: string)
      requires Valid() && Room(lines, line) && '\t' !in line
      requires |line| >= 10 && line[0..8] != "[UPDATE]" && line[0..10] != "[ROLLBACK]"
      modifies this`files, this`lines, this`log, this`snaps
      ensures Valid() && log == old(log) + [Other]
      ensures forall c :: Content(files, c) == old(Content(files, c))
    {
      hide LogHolds, Content, Consistent;
      OtherKeeps(log, snaps, Contents(files));
      WriteLog(line, Other);
      SameCells(log, snaps + [Snap("", "")], Contents(old(files)), Contents(files));
      snaps := snaps + [Snap("", "")];
    }

    /** A new document: a grid of blank cells. */
    method CreateDocument(file: string) returns (created: bool)
      requires Valid()
      modifies this`files
      ensures Valid() && (created <==> file !in old(files))
      ensures files == if created then old(files)[file := Repeat(' ', SIZE)] else old(files)
      ensures created ==> forall row: nat, col: nat :: row < ROWS && col < COLS ==> InGrid(files, CellId(file, row, col))
    {
      if file in files {
        return false;
      }
      NewDocument(files, lines, log, snaps, file);
      var blank := GetStr(SIZE);
      files := files[file := blank];
      return true;
    }

    /** The lines of the log, and an empty piece after the last tab. */
    method ReadLog() returns (strSlice: seq<string>)
      requires LogHolds(files, lines, log)
      ensures strSlice == lines + [""] && |lines| == |log|
      ensures forall i :: 0 <= i < |log| ==> ParseLine(strSlice[i]) == Some(log[i])
    {
      hide Loggable, ParseLine, Split, Join;
      LogHeader(files[LOG], lines);
      var totalLen := Atoi(files[LOG][0..8]);
      var logStr := files[LOG][0..totalLen];
      assert logStr == files[LOG][..LogLength(lines)];
      logStr := logStr[9..];
      SplitJoin(lines);
      strSlice := Split(logStr, '\t');
    }

    /** Writes the target's old value back and logs the rollback. */
    method Restore(aim: Record, time: string, user: string, file: string, ghost t: nat)
      requires Valid() && PlainTime(time) && Room(lines, RollbackLine(time, user, file))
      requires t < |log| && aim == log[t] && Pushes(aim, user, file) && !Conflict(log, t)
      requires var s := Stack(log, user, file); s != [] && t == s[|s| - 1]
      modifies this`files, this`lines, this`log, this`snaps
      ensures Valid() && log == old(log) + [Rollback(user, file)]
      ensures |old(snaps)| == |old(log)| && old(Content(files, aim.cell)) == old(snaps)[t].after
      ensures Changes(old(files), files, aim.cell, old(snaps)[t].before)
    {
      hide LogHolds, Loggable, ParseLine, Content, Consistent, AllInGrid, Stack, Conflict, Room, RollbackLine;
      RollbackAgrees(files, log, snaps, user, file, t);
      var x := aim.cell;
      var currPosition := Position(x.row, x.col);
      var currValue := aim.before;
      var nv := aim.after;
      if |currValue| < |nv| {
        currValue := currValue + Repeat(' ', |nv| - |currValue|);
      }
      WriteContents(files, x, currValue);
      DocumentKeepsLog(files, lines, log, x, currValue);
      files := files[x.file := Splice(files[x.file], currPosition, currValue)];
      RollbackLogs(files, lines, log, t, time);
      WriteLog(RollbackLine(time, aim.user, aim.cell.file), Rollback(user, file));
      AgreeAfterRollback(old(files), files, old(log), snaps, user, file, t);
      snaps := snaps + [Snap("", "")];
    }
  }

  lemma HolderLocks(lockMap: map<string, string>, edits: seq<Edit>, x: CellId)
    ensures LocksHold(lockMap, edits) ==>
      Holder(edits, x) == if LockIndex(x) in lockMap then Some(lockMap[LockIndex(x)]) else None
  {}

  function OpenLine(time: string, user: string, file: string): string {
    "[OPEN] " + time + " " + user + " open the file " + file
  }

  lemma OpenLineFits(time: string, user: string, file: string)
    requires '\t' !in time && '\t' !in user && '\t' !in file
    ensures var line := OpenLine(time, user, file);
      '\t' !in line && |line| >= 10 && line[0..8] != "[UPDATE]" && line[0..10] != "[ROLLBACK]"
  {
    var line := OpenLine(time, user, file);
    assert line[1] == 'O';
    assert line[0..8][1] != "[UPDATE]"[1] && line[0..10][1] != "[ROLLBACK]"[1];
  }

  /** What the front end gets for a cell. */
  function Shown(cell: string): string {
    if cell == Repeat(' ', BLOCK) then "" else cell
  }

  lemma ShownIs(cell: string)
    requires |cell| == BLOCK
    ensures Shown(cell) == if Blank(cell) then "" else cell
  {
    if Blank(cell) {
      assert cell == Repeat(' ', BLOCK);
    }
  }

  /** How many pieces a text of n bytes is cut into. */
  function Pieces(n: nat): nat {
    if n % BLOCK == 0 && n > 0 then n / BLOCK else n / BLOCK + 1
  }

  method ShowCell(cell: string) returns (currMsg: string)
    ensures currMsg == Shown(cell)
  {
    var emptyFlag := GetStr(BLOCK);
    currMsg := cell;
    if emptyFlag == currMsg {
      currMsg := "";
    }
  }

  /** Cuts a document into cells; blank ones become empty, but not the last, and missing ones become a space. */
  method OpenCells(backMsg: string) returns (cells: seq<string>)
    ensures |cells| == if Pieces(|backMsg|) < ROWS * COLS then ROWS * COLS else Pieces(|backMsg|)
    ensures forall i :: 0 <= i < Pieces(|backMsg|) - 1 ==>
      (i + 1) * BLOCK <= |backMsg| && cells[i] == Shown(backMsg[i * BLOCK..(i + 1) * BLOCK])
    ensures var last := Pieces(|backMsg|) - 1; last * BLOCK <= |backMsg| && cells[last] == backMsg[last * BLOCK..]
    ensures forall i :: Pieces(|backMsg|) <= i < |cells| ==> cells[i] == " "
  {
    hide Repeat, Shown;
    var sliceTime := |backMsg| / BLOCK;
    if |backMsg| % BLOCK == 0 {
      sliceTime := sliceTime - 1;
    }
    cells := [];
    var start, i := 0, 0;
    while i < sliceTime
      invariant 0 <= i && (i <= sliceTime || i == 0) && |cells| == i && start == i * BLOCK
      invariant forall j :: 0 <= j < i ==> (j + 1) * BLOCK <= |backMsg| && cells[j] == Shown(backMsg[j * BLOCK..(j + 1) * BLOCK])
    {
      assert (i + 1) * BLOCK <= |backMsg|;
      var currMsg := ShowCell(backMsg[start..start + BLOCK]);
      cells := cells + [currMsg];
      start, i := start + BLOCK, i + 1;
    }
    cells := cells + [backMsg[start..]];
    cells := FillCells(cells);
  }

  /** Adds a space for every cell that is missing. */
  method FillCells(full: seq<string>) returns (cells: seq<string>)
    ensures |cells| == if |full| < ROWS * COLS then ROWS * COLS else |full|
    ensures forall j :: 0 <= j < |cells| ==> cells[j] == if j < |full| then full[j] else " "
  {
    cells := full;
    while |cells| < ROWS * COLS
      invariant |full| <= |cells| && (|cells| <= ROWS * COLS || |cells| == |full|)
      invariant forall j :: 0 <= j < |cells| ==> cells[j] == if j < |full| then full[j] else " "
    {
      cells := cells + [" "];
    }
  }

  /** The cells of a whole document come row by row. */
  lemma CellsShown(files: map<string, string>, file: string, cells: seq<string>)
    requires file in files && file != LOG && |files[file]| == SIZE && |cells| == ROWS * COLS
    requires forall i :: 0 <= i < ROWS * COLS - 1 ==>
      (i + 1) * BLOCK <= SIZE && cells[i] == Shown(files[file][i * BLOCK..(i + 1) * BLOCK])
    requires cells[ROWS * COLS - 1] == files[file][(ROWS * COLS - 1) * BLOCK..]
    ensures forall row: nat, col: nat :: row < ROWS && col < COLS && (row, col) != (ROWS - 1, COLS - 1) ==>
      var cell := Content(files, CellId(file, row, col)); cells[row * COLS + col] == if Blank(cell) then "" else cell
    ensures cells[ROWS * COLS - 1] == Content(files, CellId(file, ROWS - 1, COLS - 1))
  {
    hide Shown;
    forall row: nat, col: nat | row < ROWS && col < COLS && (row, col) != (ROWS - 1, COLS - 1)
      ensures var cell := Content(files, CellId(file, row, col)); cells[row * COLS + col] == if Blank(cell) then "" else cell
    {
      PositionFits(row, col);
      var i := row * COLS + col;
      assert i < ROWS * COLS - 1;
      assert Position(row, col) == i * BLOCK;
      ShownIs(Content(files, CellId(file, row, col)));
    }
    PositionFits(ROWS - 1, COLS - 1);
    assert Position(ROWS - 1, COLS - 1) == (ROWS * COLS - 1) * BLOCK;
    assert files[file][(ROWS * COLS - 1) * BLOCK..] == files[file][(ROWS * COLS - 1) * BLOCK..SIZE];
  }

  /** Locks that are all shown right are reported exactly. */
  lemma LocksReported(lockMap: map<string, string>, edits: seq<Edit>, file: string, locks: Option<seq<FileLock>>)
    requires LocksHold(lockMap, edits)
    requires locks.None? <==> exists name :: name in lockMap && Breaks(name, file)
    requires locks.Some? ==> forall lock :: lock in locks.value <==>
      exists name :: name in lockMap && Shows(name, file) && LockOf(name, file, lockMap[name]) == lock
    ensures (forall c :: Holder(edits, c).Some? ==> ShownRight(file, c)) ==>
      && locks.Some?
      && forall lock :: lock in locks.value <==>
           lock.file == file && Holder(edits, CellId(file, lock.row, lock.col)) == Some(lock.owner)
  {
    hide LockIndex, Holder, Shows, LockOf, Split;
    if forall c :: Holder(edits, c).Some? ==> ShownRight(file, c) {
      forall name | name in lockMap ensures !Breaks(name, file) {
        var c :| LockIndex(c) == name;
        assert ShownRight(file, c);
      }
      forall lock
        ensures lock in locks.value <==> lock.file == file && Holder(edits, CellId(file, lock.row, lock.col)) == Some(lock.owner)
      {
        if lock in locks.value {
          var name :| name in lockMap && Shows(name, file) && LockOf(name, file, lockMap[name]) == lock;
          var c :| LockIndex(c) == name;
          assert ShownRight(file, c);
        }
        var c := CellId(file, lock.row, lock.col);
        if lock.file == file && Holder(edits, c) == Some(lock.owner) {
          assert ShownRight(file, c);
          assert LockOf(LockIndex(c), file, lockMap[LockIndex(c)]) == lock;
        }
      }
    }
  }

  lemma NewDocument(files: map<string, string>, lines: seq<string>, log: seq<Record>, snaps: seq<Snap>, file: string)
    requires LogHolds(files, lines, log) && Consistent(log, snaps, Contents(files)) && AllInGrid(files, log)
    requires file !in files
    ensures var files' := files[file := Repeat(' ', SIZE)];
      LogHolds(files', lines, log) && Consistent(log, snaps, Contents(files')) && AllInGrid(files', log)
  {
    hide Consistent, ParseLine, LogFile, Loggable;
    var files' := files[file := Repeat(' ', SIZE)];
    forall c ensures Content(files', c) == Content(files, c) {
      if c.file == file && c.row < ROWS && c.col < COLS {
        PositionFits(c.row, c.col);
        assert Content(files', c) == Repeat(' ', BLOCK);
      }
    }
    SameCells(log, snaps, Contents(files), Contents(files'));
  }

  lemma ConsistentLengths(log: seq<Record>, snaps: seq<Snap>, cells: Cells)
    requires Consistent(log, snaps, cells)
    ensures |snaps| == |log|
  {}

  method FindPlace(rcSlice: seq<(nat, nat)>, place: (nat, nat)) returns (found: bool)
    ensures found <==> place in rcSlice
  {
    for j := 0 to |rcSlice|
      invariant place !in rcSlice[..j]
    {
      if rcSlice[j] == place {
        return true;
      }
    }
    assert rcSlice[..|rcSlice|] == rcSlice;
    return false;
  }

  lemma StackEmpty(user: string, file: string)
    ensures Stack([], user, file) == []
  {}

  /** The scan's target is the top of the undo stack. */
  lemma ScanIsTop(log: seq<Record>, user: string, file: string)
    ensures var s := Stack(log, user, file);
      && Ordered(log, s, user, file)
      && Scan(log, |log|, user, file, 0) == if s == [] then None else Some(s[|s| - 1])
  {
    assert log[..|log|] == log;
    ScanFindsStack(log, |log|, user, file, 0);
    StackOrdered(log, user, file);
  }

  /** Before a rollback that is free of conflicts, the target's cell is as the update left it, and
      writing the padded old value restores what was there before. */
  lemma RollbackAgrees(files: map<string, string>, log: seq<Record>, snaps: seq<Snap>, user: string, file: string, t: nat)
    requires Consistent(log, snaps, Contents(files)) && AllInGrid(files, log)
    requires var s := Stack(log, user, file); s != [] && t == s[|s| - 1] < |log| && !Conflict(log, t)
    ensures |snaps| == |log| && log[t].Update? && InGrid(files, log[t].cell)
    ensures var x := log[t].cell; var padded := Padded(log[t].before, log[t].after);
      && Content(files, x) == snaps[t].after && |padded| <= |Content(files, x)| == BLOCK
      && Overlay(Content(files, x), padded) == snaps[t].before
  {
    RollbackKeeps(log, snaps, Contents(files), user, file);
    assert Contents(files)(log[t].cell) == Content(files, log[t].cell);
    assert Canonical(Contents(files)(log[t].cell));
  }

  lemma AgreeAfterRollback(files: map<string, string>, files': map<string, string>, log: seq<Record>, snaps: seq<Snap>,
                           user: string, file: string, t: nat)
    requires Consistent(log, snaps, Contents(files)) && AllInGrid(files, log)
    requires var s := Stack(log, user, file); s != [] && t == s[|s| - 1] < |log| && !Conflict(log, t)
    requires |snaps| == |log| && log[t].Update? && Changes(files, files', log[t].cell, snaps[t].before)
    ensures Consistent(log + [Rollback(user, file)], snaps + [Snap("", "")], Contents(files'))
    ensures AllInGrid(files', log + [Rollback(user, file)])
  {
    hide Consistent, Conflict, Stack, Content;
    RollbackKeeps(log, snaps, Contents(files), user, file);
    SameCells(log + [Rollback(user, file)], snaps + [Snap("", "")],
              Written(Contents(files), log[t].cell, snaps[t].before), Contents(files'));
  }

  /** A rollback of a logged update can be logged. */
  lemma RollbackLogs(files: map<string, string>, lines: seq<string>, log: seq<Record>, t: nat, time: string)
    requires LogHolds(files, lines, log) && t < |log| && log[t].Update? && PlainTime(time)
    ensures var r := Rollback(log[t].user, log[t].cell.file);
      var line := RollbackLine(time, log[t].user, log[t].cell.file);
      Loggable(r) && '\t' !in line && ParseLine(line) == Some(r)
  {
    hide ParseLine, LogFile;
    assert Loggable(log[t]);
    ParseRollbackLine(time, log[t].user, log[t].cell.file);
  }

  lemma ShortIsKept(value: string)
    requires ValidValue(value)
    ensures Cut(value) == value
  {}

  lemma CellRead(files: map<string, string>, x: CellId)
    requires InGrid(files, x)
    ensures Position(x.row, x.col) + BLOCK <= |files[x.file]|
    ensures Content(files, x) == files[x.file][Position(x.row, x.col)..Position(x.row, x.col) + BLOCK]
  {
    PositionFits(x.row, x.col);
  }

  lemma ConsistentHasOld(files: map<string, string>, log: seq<Record>, snaps: seq<Snap>, x: CellId)
    requires Consistent(log, snaps, Contents(files))
    ensures OldValue(Content(files, x)).Some?
  {
    assert Canonical(Contents(files)(x));
  }

  lemma DocumentKeepsLog(files: map<string, string>, lines: seq<string>, log: seq<Record>, x: CellId, value: string)
    requires LogHolds(files, lines, log) && InGrid(files, x) && Position(x.row, x.col) <= |files[x.file]|
    ensures LogHolds(files[x.file := Splice(files[x.file], Position(x.row, x.col), value)], lines, log)
  {
    hide LogFile, ParseLine, Loggable;
  }

  lemma {:induction false} GrowPow10(m: nat, n: nat)
    requires m <= n
    ensures Pow10(m) <= Pow10(n)
  {
    if m < n {
      GrowPow10(m, n - 1);
    }
  }

  lemma BlankCanonical()
    ensures Canonical(Repeat(' ', BLOCK))
  {
    var blank := Repeat(' ', BLOCK);
    GapAt(blank, 0);
    assert At(blank, GAP, 0);
    IndexUnique(blank, GAP, 0);
  }
}
