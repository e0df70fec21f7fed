/**
 The log's lines: how the handlers write updates and rollbacks, and how the rollback scan finds
 the fields again by searching for their marker words.
 */
module LogText {
  import opened Common
  import opened Text
  import opened UndoLog

  // ----- writing -----

  function UpdateLine(time: string, r: Record): string
    requires r.Update?
  {
    BeforeFile(time, r) + "file:" + r.cell.file
  }

  function BeforeUser(time: string): string {
    "[UPDATE] " + time + " "
  }

  function BeforeRow(time: string, r: Record): string
    requires r.Update?
  {
    BeforeUser(time) + "user:" + r.user + " set "
  }

  function BeforeCol(time: string, r: Record): string
    requires r.Update?
  {
    BeforeRow(time, r) + "row:" + Itoa(r.cell.row) + " "
  }

  function BeforeOld(time: string, r: Record): string
    requires r.Update?
  {
    BeforeCol(time, r) + "col:" + Itoa(r.cell.col) + " "
  }

  function BeforeNew(time: string, r: Record): string
    requires r.Update?
  {
    BeforeOld(time, r) + "from:" + r.before + " "
  }

  function BeforeFile(time: string, r: Record): string
    requires r.Update?
  {
    BeforeNew(time, r) + "to:" + r.after + " in "
  }

  function RollbackLine(time: string, user: string, file: string): string {
    "[ROLLBACK] " + time + " " + "user:" + user + " " + "file:" + file
  }

  // ----- reading -----

  predicate Slice(line: string, from: int, to: int) {
    0 <= from <= to <= |line|
  }

  /** The fields of an update line; none where a slice would be out of range. */
  function ParseUpdate(line: string): Option<Record> {
    var userBegin := Index(line, "user:") + 5;
    var rowBegin := Index(line, "row:") + 4;
    var colBegin := Index(line, "col:") + 4;
    var oldBegin := Index(line, "from:") + 5;
    var newBegin := Index(line, "to:") + 3;
    var fileBegin := Index(line, "file:") + 5;
    var userEnd := rowBegin - 9;
    var rowEnd := colBegin - 5;
    var colEnd := oldBegin - 6;
    var oldEnd := newBegin - 4;
    var newEnd := fileBegin - 9;
    if && Slice(line, userBegin, userEnd) && Slice(line, rowBegin, rowEnd) && Slice(line, colBegin, colEnd)
       && Slice(line, oldBegin, oldEnd) && Slice(line, newBegin, newEnd) && Slice(line, fileBegin, |line|)
    then
      var cell := CellId(line[fileBegin..], Atoi(line[rowBegin..rowEnd]), Atoi(line[colBegin..colEnd]));
      Some(Update(line[userBegin..userEnd], cell, line[oldBegin..oldEnd], line[newBegin..newEnd]))
    else None
  }

  function ParseRollback(line: string): Option<Record> {
    var us := Index(line, "user:") + 5;
    var fs := Index(line, "file:") + 5;
    var ue := fs - 6;
    if Slice(line, us, ue) && Slice(line, fs, |line|) then Some(Rollback(line[us..ue], line[fs..])) else None
  }

  /** The record on a line; a line of another kind counts for nothing, one that is too short crashes. */
  function ParseLine(line: string): Option<Record> {
    if |line| < 10 then None
    else if line[0..8] == "[UPDATE]" then ParseUpdate(line)
    else if line[0..10] == "[ROLLBACK]" then ParseRollback(line)
    else Some(Other)
  }

  // ----- the fields can be found again -----

  /** A word that starts a field: no spaces, a colon only at its end, its first letter only once. */
  ghost predicate Marker(w: string) {
    w != "" && w[0] !in w[1..] && ' ' !in w && ':' !in w[..|w| - 1] && 'a' <= w[0] <= 'z'
  }

  /** A field between its marker word and what follows is found by the first occurrence of the word. */
  lemma FieldAt(p: string, word: string, field: string, sep: string, line: string)
    requires p + word + field + sep <= line && Marker(word) && !Contains(p, word)
    ensures Index(line, word) == |p|
    ensures |p| + |word| + |field| <= |line|
    ensures line[|p| + |word|..|p| + |word| + |field|] == field
  {
    var all := p + word + field + sep;
    var post := line[|p| + |word|..];
    assert line[..|all|] == all;
    assert line == p + word + post;
    IndexAfter(p, word, post);
  }

  /** Adding a field keeps another marker word out. */
  lemma AvoidField(p: string, word: string, field: string, sep: string, sub: string)
    requires Marker(sub) && !Contains(p, sub) && !Contains(word, sub) && !Contains(field, sub) && !Contains(sep, sub)
    requires p != "" && p[|p| - 1] == ' ' && word != "" && word[|word| - 1] == ':' && sep != "" && sep[0] == ' '
    ensures !Contains(p + word + field + sep, sub)
  {
    AvoidConcat(p, word, sub);
    assert (p + word)[|p + word| - 1] == ':';
    AvoidConcat(p + word, field, sub);
    AvoidConcat(p + word + field, sep, sub);
  }

  lemma AvoidDigits(n: nat, sub: string)
    requires Marker(sub)
    ensures !Contains(Itoa(n), sub)
  {
    AvoidChar(Itoa(n), sub, sub[0]);
  }

  /** The clock's text: no tab and no lower-case letter. */
  ghost predicate PlainTime(time: string) {
    forall c :: c in time ==> c != '\t' && !('a' <= c <= 'z')
  }

  lemma AvoidTime(time: string, head: string, sub: string)
    requires PlainTime(time) && PlainTime(head) && Marker(sub)
    ensures !Contains(head + time + " ", sub)
  {
    AvoidChar(head + time + " ", sub, sub[0]);
  }

  ghost predicate ReadableUser(user: string) {
    && !Contains(user, "row:") && !Contains(user, "col:") && !Contains(user, "from:")
    && !Contains(user, "to:") && !Contains(user, "file:")
  }

  /** The marker words that the fields must not contain for the scan to read them back. */
  ghost predicate Readable(r: Record) {
    match r
    case Update(user, cell, before, after) =>
      && ReadableUser(user)
      && !Contains(before, "to:") && !Contains(before, "file:")
      && !Contains(after, "file:")
    case Rollback(user, file) => !Contains(user, "file:")
    case Other => true
  }

  /** Tabs separate the lines. */
  ghost predicate NoTab(r: Record) {
    match r
    case Update(user, cell, before, after) => '\t' !in user && '\t' !in cell.file && '\t' !in before && '\t' !in after
    case Rollback(user, file) => '\t' !in user && '\t' !in file
    case Other => true
  }

  ghost predicate Loggable(r: Record) {
    NoTab(r) && Readable(r)
  }

  lemma WordsApart()
    ensures !Contains("user:", "row:") && !Contains("user:", "col:") && !Contains("user:", "from:")
    ensures !Contains("user:", "to:") && !Contains("user:", "file:")
    ensures !Contains("row:", "col:") && !Contains("row:", "from:") && !Contains("row:", "to:") && !Contains("row:", "file:")
    ensures !Contains("col:", "from:") && !Contains("col:", "to:") && !Contains("col:", "file:")
    ensures !Contains("from:", "to:") && !Contains("from:", "file:") && !Contains("to:", "file:")
  {
    AvoidChar("user:", "row:", 'o');
    AvoidChar("user:", "col:", 'c');
    AvoidChar("user:", "from:", 'f');
    AvoidChar("user:", "to:", 't');
    AvoidChar("user:", "file:", 'f');
    AvoidChar("row:", "col:", 'c');
    AvoidChar("row:", "from:", 'f');
    AvoidChar("row:", "to:", 't');
    AvoidChar("row:", "file:", 'f');
    AvoidChar("col:", "from:", 'f');
    AvoidChar("col:", "to:", 't');
    AvoidChar("col:", "file:", 'f');
    AvoidChar("from:", "to:", 't');
    AvoidChar("from:", "file:", 'i');
    AvoidChar("to:", "file:", 'f');
  }

  lemma SepsApart()
    ensures !Contains(" set ", "row:") && !Contains(" set ", "col:") && !Contains(" set ", "from:")
    ensures !Contains(" set ", "to:") && !Contains(" set ", "file:") && !Contains(" in ", "file:")
    ensures !Contains(" ", "col:") && !Contains(" ", "from:") && !Contains(" ", "to:") && !Contains(" ", "file:")
  {
    AvoidChar(" set ", "row:", 'r');
    AvoidChar(" set ", "col:", 'c');
    AvoidChar(" set ", "from:", 'f');
    AvoidChar(" set ", "to:", 'o');
    AvoidChar(" set ", "file:", 'f');
    AvoidChar(" in ", "file:", 'f');
    AvoidChar(" ", "col:", 'c');
    AvoidChar(" ", "from:", 'f');
    AvoidChar(" ", "to:", 't');
    AvoidChar(" ", "file:", 'f');
  }

  lemma AvoidBeforeRow(time: string, r: Record, sub: string)
    requires r.Update? && PlainTime(time) && Marker(sub) && !Contains(r.user, sub)
    requires sub == "row:" || sub == "col:" || sub == "from:" || sub == "to:" || sub == "file:"
    ensures !Contains(BeforeRow(time, r), sub)
  {
    WordsApart();
    SepsApart();
    AvoidTime(time, "[UPDATE] ", sub);
    AvoidField(BeforeUser(time), "user:", r.user, " set ", sub);
  }

  lemma AvoidBeforeCol(time: string, r: Record, sub: string)
    requires r.Update? && PlainTime(time) && Marker(sub) && !Contains(r.user, sub)
    requires sub == "col:" || sub == "from:" || sub == "to:" || sub == "file:"
    ensures !Contains(BeforeCol(time, r), sub)
  {
    AvoidBeforeRow(time, r, sub);
    WordsApart();
    SepsApart();
    AvoidDigits(r.cell.row, sub);
    AvoidField(BeforeRow(time, r), "row:", Itoa(r.cell.row), " ", sub);
  }

  lemma AvoidBeforeOld(time: string, r: Record, sub: string)
    requires r.Update? && PlainTime(time) && Marker(sub) && !Contains(r.user, sub)
    requires sub == "from:" || sub == "to:" || sub == "file:"
    ensures !Contains(BeforeOld(time, r), sub)
  {
    AvoidBeforeCol(time, r, sub);
    WordsApart();
    SepsApart();
    AvoidDigits(r.cell.col, sub);
    AvoidField(BeforeCol(time, r), "col:", Itoa(r.cell.col), " ", sub);
  }

  lemma AvoidBeforeNew(time: string, r: Record, sub: string)
    requires r.Update? && PlainTime(time) && Marker(sub) && !Contains(r.user, sub) && !Contains(r.before, sub)
    requires sub == "to:" || sub == "file:"
    ensures !Contains(BeforeNew(time, r), sub)
  {
    AvoidBeforeOld(time, r, sub);
    WordsApart();
    SepsApart();
    AvoidField(BeforeOld(time, r), "from:", r.before, " ", sub);
  }

  lemma AvoidBeforeFile(time: string, r: Record)
    requires r.Update? && PlainTime(time)
    requires !Contains(r.user, "file:") && !Contains(r.before, "file:") && !Contains(r.after, "file:")
    ensures !Contains(BeforeFile(time, r), "file:")
  {
    AvoidBeforeNew(time, r, "file:");
    WordsApart();
    SepsApart();
    AvoidField(BeforeNew(time, r), "to:", r.after, " in ", "file:");
  }

  lemma PrefixChain(a: string, b: string, c: string)
    requires a <= b && b <= c
    ensures a <= c
  {}

  /** Each part of the line is a prefix of the line. */
  lemma Prefixes(time: string, r: Record)
    requires r.Update?
    ensures var line := UpdateLine(time, r);
      && BeforeRow(time, r) <= line && BeforeCol(time, r) <= line && BeforeOld(time, r) <= line
      && BeforeNew(time, r) <= line && BeforeFile(time, r) <= line
  {
    var line := UpdateLine(time, r);
    var new_, old_, col, row := BeforeNew(time, r), BeforeOld(time, r), BeforeCol(time, r), BeforeRow(time, r);
    assert BeforeFile(time, r) <= line;
    assert new_ <= BeforeFile(time, r);
    PrefixChain(new_, BeforeFile(time, r), line);
    assert old_ <= new_;
    PrefixChain(old_, new_, line);
    assert col <= old_;
    PrefixChain(col, old_, line);
    assert row <= col;
    PrefixChain(row, col, line);
  }

  lemma UserAndRow(time: string, r: Record)
    requires r.Update? && PlainTime(time) && ReadableUser(r.user)
    ensures var line := UpdateLine(time, r); var p := |BeforeUser(time)|; var q := |BeforeRow(time, r)|;
      && Index(line, "user:") == p && Index(line, "row:") == q
      && Slice(line, p + 5, q - 5) && line[p + 5..q - 5] == r.user
      && Slice(line, q + 4, |BeforeCol(time, r)| - 1) && line[q + 4..|BeforeCol(time, r)| - 1] == Itoa(r.cell.row)
  {
    Prefixes(time, r);
    var line := UpdateLine(time, r);
    AvoidTime(time, "[UPDATE] ", "user:");
    FieldAt(BeforeUser(time), "user:", r.user, " set ", line);
    AvoidBeforeRow(time, r, "row:");
    FieldAt(BeforeRow(time, r), "row:", Itoa(r.cell.row), " ", line);
  }

  lemma ColAndOld(time: string, r: Record)
    requires r.Update? && PlainTime(time) && ReadableUser(r.user)
    ensures var line := UpdateLine(time, r); var p := |BeforeCol(time, r)|; var q := |BeforeOld(time, r)|;
      && Index(line, "col:") == p && Index(line, "from:") == q
      && Slice(line, p + 4, q - 1) && line[p + 4..q - 1] == Itoa(r.cell.col)
      && Slice(line, q + 5, |BeforeNew(time, r)| - 1) && line[q + 5..|BeforeNew(time, r)| - 1] == r.before
  {
    Prefixes(time, r);
    var line := UpdateLine(time, r);
    AvoidBeforeCol(time, r, "col:");
    FieldAt(BeforeCol(time, r), "col:", Itoa(r.cell.col), " ", line);
    AvoidBeforeOld(time, r, "from:");
    FieldAt(BeforeOld(time, r), "from:", r.before, " ", line);
  }

  lemma NewPart(time: string, r: Record)
    requires r.Update? && PlainTime(time) && Readable(r)
    ensures var line := UpdateLine(time, r); var p := |BeforeNew(time, r)|; var q := |BeforeFile(time, r)|;
      Index(line, "to:") == p && Slice(line, p + 3, q - 4) && line[p + 3..q - 4] == r.after
  {
    Prefixes(time, r);
    AvoidBeforeNew(time, r, "to:");
    FieldAt(BeforeNew(time, r), "to:", r.after, " in ", UpdateLine(time, r));
  }

  lemma FilePart(time: string, r: Record)
    requires r.Update? && PlainTime(time)
    requires !Contains(r.user, "file:") && !Contains(r.before, "file:") && !Contains(r.after, "file:")
    ensures var line := UpdateLine(time, r); var q := |BeforeFile(time, r)|;
      Index(line, "file:") == q && Slice(line, q + 5, |line|) && line[q + 5..] == r.cell.file
  {
    var line := UpdateLine(time, r);
    AvoidBeforeFile(time, r);
    assert BeforeFile(time, r) + "file:" + r.cell.file + "" == line;
    FieldAt(BeforeFile(time, r), "file:", r.cell.file, "", line);
  }

  lemma ReadableUpdate(time: string, r: Record)
    requires r.Update? && PlainTime(time) && Readable(r)
    ensures ParseLine(UpdateLine(time, r)) == Some(r)
  {
    hide UpdateLine, BeforeUser, BeforeRow, BeforeCol, BeforeOld, BeforeNew, BeforeFile, Index, Atoi, Itoa, Contains;
    UserAndRow(time, r);
    ColAndOld(time, r);
    NewPart(time, r);
    FilePart(time, r);
    AtoiItoa(r.cell.row);
    AtoiItoa(r.cell.col);
    UpdateHead(time, r);
  }

  /** Where the fields of an update line end. */
  lemma Places(time: string, r: Record)
    requires r.Update?
    ensures |BeforeRow(time, r)| == |BeforeUser(time)| + 10 + |r.user|
    ensures |BeforeOld(time, r)| > |BeforeRow(time, r)|
    ensures |BeforeNew(time, r)| == |BeforeOld(time, r)| + 6 + |r.before|
    ensures |BeforeFile(time, r)| == |BeforeNew(time, r)| + 7 + |r.after|
    ensures |UpdateLine(time, r)| == |BeforeFile(time, r)| + 5 + |r.cell.file|
  {}

  lemma UserPlace(time: string, r: Record)
    requires r.Update? && PlainTime(time)
    ensures Index(UpdateLine(time, r), "user:") == |BeforeUser(time)|
  {
    Prefixes(time, r);
    AvoidTime(time, "[UPDATE] ", "user:");
    FieldAt(BeforeUser(time), "user:", r.user, " set ", UpdateLine(time, r));
  }

  /** A line that reads back has its marker words where they were written; the lengths of the fields say so,
      from the file back to the old value. */
  lemma ReadBackPlaces(time: string, r: Record)
    requires r.Update? && PlainTime(time) && ParseLine(UpdateLine(time, r)) == Some(r)
    ensures var line := UpdateLine(time, r);
      && Index(line, "row:") == |BeforeRow(time, r)| && Index(line, "from:") == |BeforeOld(time, r)|
      && Index(line, "to:") == |BeforeNew(time, r)| && Index(line, "file:") == |BeforeFile(time, r)|
      && Index(line, "col:") >= |BeforeRow(time, r)|
  {
    hide UpdateLine, BeforeUser, BeforeRow, BeforeCol, BeforeOld, BeforeNew, BeforeFile, Index, Atoi;
    UpdateHead(time, r);
    Places(time, r);
    UserPlace(time, r);
  }

  /** A word found no earlier than p does not stand in a field that ends before p. */
  lemma NotBefore(line: string, pre: string, field: string, word: string, p: int)
    requires pre + field <= line && |pre| + |field| <= p <= Index(line, word) && word != ""
    ensures !Contains(field, word)
  {
    IndexIs(line, word);
    forall q ensures !At(field, word, q) {
      if At(field, word, q) {
        assert line[..|pre + field|] == pre + field;
        assert line[|pre| + q..|pre| + q + |word|] == field[q..q + |word|];
        assert At(line, word, |pre| + q);
        assert false;
      }
    }
  }

  lemma Fields(time: string, r: Record)
    requires r.Update?
    ensures var line := UpdateLine(time, r);
      && BeforeUser(time) + "user:" + r.user <= line && BeforeOld(time, r) + "from:" + r.before <= line
      && BeforeNew(time, r) + "to:" + r.after <= line
  {
    Prefixes(time, r);
    PrefixChain(BeforeUser(time) + "user:" + r.user, BeforeRow(time, r), UpdateLine(time, r));
    PrefixChain(BeforeOld(time, r) + "from:" + r.before, BeforeNew(time, r), UpdateLine(time, r));
    PrefixChain(BeforeNew(time, r) + "to:" + r.after, BeforeFile(time, r), UpdateLine(time, r));
  }

  lemma ReadBackReadable(time: string, r: Record)
    requires r.Update? && PlainTime(time) && ParseLine(UpdateLine(time, r)) == Some(r)
    ensures Readable(r)
  {
    hide ParseLine, UpdateLine, BeforeUser, BeforeRow, BeforeCol, BeforeOld, BeforeNew, BeforeFile, Index, Contains;
    ReadBackPlaces(time, r);
    Places(time, r);
    Fields(time, r);
    var line := UpdateLine(time, r);
    var user, old_, new_ := BeforeUser(time) + "user:", BeforeOld(time, r) + "from:", BeforeNew(time, r) + "to:";
    var end := |user| + |r.user|;
    NotBefore(line, user, r.user, "row:", end);
    NotBefore(line, user, r.user, "col:", end);
    NotBefore(line, user, r.user, "from:", end);
    NotBefore(line, user, r.user, "to:", end);
    NotBefore(line, user, r.user, "file:", end);
    NotBefore(line, old_, r.before, "to:", |old_| + |r.before|);
    NotBefore(line, old_, r.before, "file:", |old_| + |r.before|);
    NotBefore(line, new_, r.after, "file:", |new_| + |r.after|);
  }

  /** An update line reads back as its record if and only if no field holds the marker word of a later field. */
  lemma ParseUpdateLine(time: string, r: Record)
    requires r.Update? && PlainTime(time)
    ensures ParseLine(UpdateLine(time, r)) == Some(r) <==> Readable(r)
  {
    hide ParseLine, UpdateLine, Readable;
    if Readable(r) {
      ReadableUpdate(time, r);
    }
    if ParseLine(UpdateLine(time, r)) == Some(r) {
      ReadBackReadable(time, r);
    }
  }

  lemma UpdateHead(time: string, r: Record)
    requires r.Update?
    ensures var line := UpdateLine(time, r); |line| >= 10 && line[0..8] == "[UPDATE]"
  {
    Prefixes(time, r);
    var line := UpdateLine(time, r);
    assert BeforeUser(time) <= BeforeRow(time, r);
    PrefixChain(BeforeUser(time), BeforeRow(time, r), line);
    assert BeforeUser(time)[0..8] == "[UPDATE]";
    assert line[0..8] == BeforeUser(time)[0..8];
  }

  /** Where the parts of a rollback line stand. */
  lemma RollbackParts(time: string, user: string, file: string)
    requires PlainTime(time)
    ensures var line := RollbackLine(time, user, file); var p := "[ROLLBACK] " + time + " ";
      && |line| >= 10 && line[0..8] != "[UPDATE]" && line[0..10] == "[ROLLBACK]"
      && p + "user:" + user <= line && p + "user:" + user + " " + "file:" + file == line
      && Index(line, "user:") == |p| && line[|p| + 5..|p| + 5 + |user|] == user
      && line[|p| + 11 + |user|..] == file
  {
    var line := RollbackLine(time, user, file);
    var p := "[ROLLBACK] " + time + " ";
    hide Index, Contains;
    AvoidTime(time, "[ROLLBACK] ", "user:");
    assert p + "user:" + user + " " <= line;
    FieldAt(p, "user:", user, " ", line);
    assert line[0..10] == "[ROLLBACK]";
    assert line[0..8][1] == 'R';
  }

  lemma RollbackFile(time: string, user: string, file: string)
    requires PlainTime(time)
    ensures var line := RollbackLine(time, user, file); var p := "[ROLLBACK] " + time + " ";
      Index(line, "file:") == |p| + 6 + |user| <==> !Contains(user, "file:")
  {
    hide Index, Contains;
    var line := RollbackLine(time, user, file);
    var p := "[ROLLBACK] " + time + " ";
    RollbackParts(time, user, file);
    if !Contains(user, "file:") {
      AvoidTime(time, "[ROLLBACK] ", "file:");
      WordsApart();
      SepsApart();
      AvoidField(p, "user:", user, " ", "file:");
      var q := p + "user:" + user + " ";
      assert q + "file:" + file + "" == line;
      FieldAt(q, "file:", file, "", line);
    }
    if Index(line, "file:") == |p| + 6 + |user| {
      NotBefore(line, p + "user:", user, "file:", |p| + 5 + |user|);
    }
  }

  /** A rollback line reads back as its record if and only if the user's name does not hold the file's marker word. */
  lemma ParseRollbackLine(time: string, user: string, file: string)
    requires PlainTime(time)
    ensures ParseLine(RollbackLine(time, user, file)) == Some(Rollback(user, file)) <==> Readable(Rollback(user, file))
  {
    hide Index, ParseUpdate, Contains, RollbackLine;
    RollbackParts(time, user, file);
    RollbackFile(time, user, file);
  }

  // ----- a value with a marker word -----

  /** The text that the scan takes for the new value starts at the first "to:". */
  lemma MisreadNew(time: string, r: Record, head: string, tail: string)
    requires r.Update? && PlainTime(time) && ReadableUser(r.user)
    requires r.before == head + "to:" + tail && !Contains(head, "to:")
    ensures var line := UpdateLine(time, r); var p := |BeforeOld(time, r)| + 5 + |head|; var q := |BeforeFile(time, r)|;
      Index(line, "to:") == p && Slice(line, p + 3, q - 4) && line[p + 3..q - 4] == tail + " to:" + r.after
  {
    hide Contains, Index;
    Prefixes(time, r);
    var line, p := UpdateLine(time, r), BeforeOld(time, r) + "from:" + head;
    AvoidBeforeOld(time, r, "to:");
    WordsApart();
    AvoidConcat(BeforeOld(time, r), "from:", "to:");
    assert (BeforeOld(time, r) + "from:")[|BeforeOld(time, r)| + 4] == ':';
    AvoidConcat(BeforeOld(time, r) + "from:", head, "to:");
    assert p + "to:" + (tail + " to:" + r.after) + " in " == BeforeFile(time, r);
    FieldAt(p, "to:", tail + " to:" + r.after, " in ", line);
  }

  lemma MisreadHead(time: string, r: Record, head: string, tail: string)
    requires r.Update? && PlainTime(time) && ReadableUser(r.user) && r.before == head + "to:" + tail && head != ""
    ensures var line := UpdateLine(time, r); var p := |BeforeOld(time, r)| + 5;
      Slice(line, p, p + |head| - 1) && line[p..p + |head| - 1] == head[..|head| - 1]
  {
    hide Contains, Index;
    ColAndOld(time, r);
    var line, p := UpdateLine(time, r), |BeforeOld(time, r)| + 5;
    assert line[p..p + |head| - 1] == line[p..|BeforeNew(time, r)| - 1][..|head| - 1];
    assert r.before[..|head| - 1] == head[..|head| - 1];
  }

  /** An old value with "to:" in it is cut in front of that word when it is read, and its rest goes to the new
      value; when it starts with the word the scan crashes. */
  lemma MisreadOld(time: string, r: Record, head: string, tail: string)
    requires r.Update? && PlainTime(time) && r.before == head + "to:" + tail && !Contains(head, "to:")
    requires ReadableUser(r.user) && !Contains(r.before, "file:") && !Contains(r.after, "file:")
    ensures ParseLine(UpdateLine(time, r)) ==
      if head == "" then None
      else Some(Update(r.user, r.cell, head[..|head| - 1], tail + " to:" + r.after))
  {
    hide UpdateLine, BeforeUser, BeforeRow, BeforeCol, BeforeOld, BeforeNew, BeforeFile, Index, Atoi, Itoa, Contains;
    UserAndRow(time, r);
    ColAndOld(time, r);
    MisreadNew(time, r, head, tail);
    if head != "" {
      MisreadHead(time, r, head, tail);
    }
    FilePart(time, r);
    UpdateHead(time, r);
    AtoiItoa(r.cell.row);
    AtoiItoa(r.cell.col);
  }

  const REPLY: string := "reply to: Bob"

  /** A cell that holds "reply to: Bob" is overwritten with "x"; the undo of that update reads the old value as
      "reply" and leaves "reply     Bob". */
  lemma MisreadExample(time: string, cell: CellId)
    requires PlainTime(time)
    ensures var rest := Repeat(' ', BLOCK - |REPLY|); var held := REPLY + rest;
      var r := Update("ann", cell, REPLY, "x");
      && Canonical(held) && OldValue(held) == Some(REPLY) && ValidValue("x")
      && ParseLine(UpdateLine(time, r)) == Some(Update("ann", cell, "reply", " Bob to:x"))
      && Overlay(Overlay(held, "x"), Padded("reply", " Bob to:x")) == "reply     Bob" + rest != held
  {
    hide ParseLine, UpdateLine, Canonical, OldValue, ValidValue, Overlay, Padded, Contains, ReadableUser;
    assert REPLY == "reply " + "to:" + " Bob";
    ReplyWords();
    MisreadOld(time, Update("ann", cell, REPLY, "x"), "reply ", " Bob");
    assert "reply "[..5] == "reply" && " Bob" + " to:" + "x" == " Bob to:x";
    ReplyCell();
    ReplyUndone();
  }

  lemma ReplyWords()
    ensures ReadableUser("ann") && !Contains("reply ", "to:") && !Contains(REPLY, "file:") && !Contains("x", "file:")
  {
    AvoidChar("reply ", "to:", 't');
    AvoidChar("ann", "row:", 'r');
    AvoidChar("ann", "col:", 'c');
    AvoidChar("ann", "from:", 'f');
    AvoidChar("ann", "to:", 't');
    AvoidChar("ann", "file:", 'f');
    AvoidChar(REPLY, "file:", 'f');
    AvoidChar("x", "file:", 'f');
  }

  lemma ReplyCell()
    ensures var held := REPLY + Repeat(' ', BLOCK - |REPLY|);
      Canonical(held) && OldValue(held) == Some(REPLY) && ValidValue("x")
  {
    var held := REPLY + Repeat(' ', BLOCK - |REPLY|);
    forall q | 0 <= q < 13 ensures !At(held, GAP, q) {
      GapAt(held, q);
      var k := if q < 5 then 4 else if q == 5 then 6 else if q < 9 then 8 else 12;
      assert held[k] == REPLY[k] != ' ';
      assert held[q..q + 5][k - q] == held[k];
    }
    GapAt(held, 13);
    assert Blank(held[13..18]);
    IndexUnique(held, GAP, 13);
    assert held[..13] == REPLY;
    AvoidChar("x", GAP, ' ');
  }

  lemma ReplyUndone()
    ensures var rest := Repeat(' ', BLOCK - |REPLY|); var held := REPLY + rest;
      Overlay(Overlay(held, "x"), Padded("reply", " Bob to:x")) == "reply     Bob" + rest != held
  {
    var rest := Repeat(' ', BLOCK - |REPLY|);
    var held := REPLY + rest;
    var pad := Padded("reply", " Bob to:x");
    assert pad == "reply" + Repeat(' ', 4);
    assert held[9..] == " Bob" + rest;
    var undone := Overlay(Overlay(held, "x"), pad);
    assert undone == pad + held[9..];
    assert Repeat(' ', 4) == "    ";
    assert undone == "reply     Bob" + rest;
    assert held[6] == 't' && undone[6] == ' ';
  }
}
