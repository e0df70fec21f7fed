/**
 The catalogue of documents: a text file of fixed-width numbers edited in place, and the two maps
 of live and trashed files that must agree with it, also after a restart.
 */
module Catalogue {
  import opened Common
  import opened Text
  import UndoLog

  /** The length of a new document. */
  const DEFAULT_SIZE: nat := UndoLog.SIZE

  /** One record of the file: live files have the valid bit set, trashed ones do not. */
  datatype Rec = Rec(name: string, size: nat, live: bool)

  function Bit(live: bool): string {
    if live then "1" else "0"
  }

  function Head(r: Rec): string {
    NumExtend(|r.name|, 8) + r.name + NumExtend(r.size, 8)
  }

  function Encode(r: Rec): string {
    Head(r) + Bit(r.live)
  }

  function Body(recs: seq<Rec>): string {
    if recs == [] then "" else Body(recs[..|recs| - 1]) + Encode(recs[|recs| - 1])
  }

  function Length(recs: seq<Rec>): nat {
    16 + |Body(recs)|
  }

  function FileText(recs: seq<Rec>): string {
    NumExtend(|recs|, 8) + NumExtend(Length(recs), 8) + Body(recs)
  }

  ghost predicate Distinct(recs: seq<Rec>) {
    forall i, j :: 0 <= i < j < |recs| ==> recs[i].name != recs[j].name
  }

  /** The numbers fit their fields. */
  ghost predicate Fits(recs: seq<Rec>) {
    |recs| < Pow10(8) && Length(recs) < Pow10(8) &&
    forall i :: 0 <= i < |recs| ==> |recs[i].name| < Pow10(8) && recs[i].size < Pow10(8)
  }

  /** The file starts with the text of the records; what follows was left by longer texts. */
  ghost predicate Stores(config: string, recs: seq<Rec>) {
    Fits(recs) && Distinct(recs) && FileText(recs) <= config
  }

  /** The map has exactly the records with the given valid bit. */
  ghost predicate Agrees(m: map<string, nat>, recs: seq<Rec>, live: bool) {
    && (forall k :: 0 <= k < |recs| && recs[k].live == live ==> recs[k].name in m && m[recs[k].name] == recs[k].size)
    && (forall name :: name in m ==> exists k :: 0 <= k < |recs| && recs[k].name == name && recs[k].live == live)
  }

  /** At most one map agrees with the records. */
  lemma AgreesOnce(m: map<string, nat>, m': map<string, nat>, recs: seq<Rec>, live: bool)
    requires Agrees(m, recs, live) && Agrees(m', recs, live)
    ensures m == m'
  {
    forall name | name in m ensures name in m' && m[name] == m'[name] {
      var k :| 0 <= k < |recs| && recs[k].name == name && recs[k].live == live;
    }
    forall name | name in m' ensures name in m {
      var k :| 0 <= k < |recs| && recs[k].name == name && recs[k].live == live;
    }
  }

  // ----- the text -----

  lemma BodyPush(recs: seq<Rec>, r: Rec)
    ensures Body(recs + [r]) == Body(recs) + Encode(r)
  {
    assert (recs + [r])[..|recs|] == recs;
  }

  lemma BodyEmpty()
    ensures Body([]) == ""
  {}

  lemma {:induction false} BodyAppend(a: seq<Rec>, b: seq<Rec>)
    ensures Body(a + b) == Body(a) + Body(b)
  {
    hide Encode, Body;
    BodyEmpty();
    if b == [] {
      assert a + b == a;
    } else {
      var n := |b| - 1;
      assert a + b == (a + b[..n]) + [b[n]];
      assert b == b[..n] + [b[n]];
      BodyAppend(a, b[..n]);
      BodyPush(a + b[..n], b[n]);
      BodyPush(b[..n], b[n]);
    }
  }

  lemma Around(recs: seq<Rec>, k: nat)
    requires k < |recs|
    ensures recs == (recs[..k] + [recs[k]]) + recs[k + 1..]
  {}

  /** The text of the records around the k-th one. */
  lemma BodyAt(recs: seq<Rec>, k: nat)
    requires k < |recs|
    ensures Body(recs) == Body(recs[..k]) + Encode(recs[k]) + Body(recs[k + 1..])
  {
    hide Encode, Body;
    Around(recs, k);
    BodyPush(recs[..k], recs[k]);
    BodyAppend(recs[..k] + [recs[k]], recs[k + 1..]);
  }

  /** Where the k-th record's name starts in the file. */
  function NameAt(recs: seq<Rec>, k: nat): nat
    requires k < |recs|
  {
    16 + |Body(recs[..k])| + 8
  }

  /** Where its valid bit is. */
  function BitAt(recs: seq<Rec>, k: nat): nat
    requires k < |recs|
  {
    NameAt(recs, k) + |recs[k].name| + 8
  }

  function Flip(recs: seq<Rec>, k: nat, live: bool): seq<Rec>
    requires k < |recs|
  {
    recs[k := recs[k].(live := live)]
  }

  /** Changing one valid bit changes one character of the text. */
  lemma FlipText(recs: seq<Rec>, k: nat, live: bool)
    requires k < |recs|
    ensures BitAt(recs, k) < |FileText(recs)|
    ensures FileText(recs)[BitAt(recs, k)] == Bit(recs[k].live)[0]
    ensures FileText(Flip(recs, k, live)) == FileText(recs)[BitAt(recs, k) := Bit(live)[0]]
  {
    hide Body, NumExtend;
    var recs' := Flip(recs, k, live);
    BodyAt(recs, k);
    BodyAt(recs', k);
    assert recs'[..k] == recs[..k] && recs'[k + 1..] == recs[k + 1..];
    var front, back := Body(recs[..k]) + Head(recs[k]), Body(recs[k + 1..]);
    assert Head(recs'[k]) == Head(recs[k]);
    assert Body(recs) == front + Bit(recs[k].live) + back;
    assert Body(recs') == front + Bit(live) + back;
    assert |front| == BitAt(recs, k) - 16;
  }

  /** Whether the first occurrence of the k-th record's name is in its own name field. */
  ghost predicate FirstIsOwn(recs: seq<Rec>, k: nat)
    requires k < |recs|
  {
    Index(FileText(recs), recs[k].name) == NameAt(recs, k)
  }

  /** What the handler writes into the text to change a valid bit: found by the name's first occurrence. */
  function SetBit(text: string, name: string, live: bool): string {
    var pos := Index(text, name) + |name| + 8;
    if 0 <= pos < |text| then text[pos := Bit(live)[0]] else text
  }

  /** Changing the valid bit of a file gives the text of the changed catalogue if and only if the
      first occurrence of its name in the text is its own name field. */
  lemma SetBitExact(recs: seq<Rec>, k: nat, live: bool)
    requires k < |recs| && recs[k].live != live
    ensures SetBit(FileText(recs), recs[k].name, live) == FileText(Flip(recs, k, live)) <==> FirstIsOwn(recs, k)
  {
    hide FileText, Index, NumExtend, Body;
    FlipText(recs, k, live);
    var text, pos := FileText(recs), Index(FileText(recs), recs[k].name) + |recs[k].name| + 8;
    if pos != BitAt(recs, k) {
      assert SetBit(text, recs[k].name, live)[BitAt(recs, k)] == text[BitAt(recs, k)];
    }
  }

  lemma NameStands(recs: seq<Rec>, j: nat)
    requires j < |recs|
    ensures At(FileText(recs), recs[j].name, NameAt(recs, j))
  {
    hide Body, NumExtend;
    BodyAt(recs, j);
    var text, p := FileText(recs), NameAt(recs, j);
    var pre := NumExtend(|recs|, 8) + NumExtend(Length(recs), 8) + Body(recs[..j]) + NumExtend(|recs[j].name|, 8);
    var post := NumExtend(recs[j].size, 8) + Bit(recs[j].live) + Body(recs[j + 1..]);
    assert text == pre + recs[j].name + post;
  }

  lemma NameOrder(recs: seq<Rec>, j: nat, k: nat)
    requires j < k < |recs|
    ensures NameAt(recs, j) + |recs[j].name| <= NameAt(recs, k)
  {
    hide Body, NumExtend;
    var front := recs[..k];
    BodyAt(front, j);
    assert front[..j] == recs[..j] && front[j] == recs[j];
  }

  /** A name that is part of an earlier file's name is never found in its own record, so its valid
      bit cannot be changed. */
  lemma NestedName(recs: seq<Rec>, j: nat, k: nat, live: bool)
    requires j < k < |recs| && recs[k].name != "" && Contains(recs[j].name, recs[k].name) && recs[k].live != live
    ensures !FirstIsOwn(recs, k)
    ensures SetBit(FileText(recs), recs[k].name, live) != FileText(Flip(recs, k, live))
  {
    hide FileText, NumExtend, Body;
    var text := FileText(recs);
    NameStands(recs, j);
    NameOrder(recs, j, k);
    var p :| At(recs[j].name, recs[k].name, p);
    AtInside(text, recs[j].name, recs[k].name, NameAt(recs, j), p);
    IndexIs(text, recs[k].name);
    SetBitExact(recs, k, live);
  }

  lemma FlipKeeps(recs: seq<Rec>, k: nat, live: bool)
    requires k < |recs| && Fits(recs) && Distinct(recs)
    ensures Fits(Flip(recs, k, live)) && Distinct(Flip(recs, k, live))
  {
    hide Body, NumExtend;
    FlipText(recs, k, live);
    assert |FileText(recs)| == 16 + |Body(recs)|;
  }

  /** The map that loses a name. */
  lemma FlipLeaves(recs: seq<Rec>, k: nat, m: map<string, nat>, live: bool)
    requires k < |recs| && Distinct(recs) && recs[k].live == live && Agrees(m, recs, live)
    ensures Agrees(m - {recs[k].name}, Flip(recs, k, !live), live)
  {
    var recs' := Flip(recs, k, !live);
    forall j | 0 <= j < |recs| && j != k ensures recs'[j] == recs[j] && recs[j].name != recs[k].name {}
    forall name | name in m && name != recs[k].name
      ensures exists j :: 0 <= j < |recs'| && recs'[j].name == name && recs'[j].live == live
    {
      var j :| 0 <= j < |recs| && recs[j].name == name && recs[j].live == live;
      assert recs'[j] == recs[j];
    }
  }

  /** The map that gains it. */
  lemma FlipJoins(recs: seq<Rec>, k: nat, m: map<string, nat>, live: bool)
    requires k < |recs| && Distinct(recs) && recs[k].live == !live && Agrees(m, recs, live)
    ensures Agrees(m[recs[k].name := recs[k].size], Flip(recs, k, live), live)
  {
    var recs' := Flip(recs, k, live);
    forall j | 0 <= j < |recs| && j != k ensures recs'[j] == recs[j] && recs[j].name != recs[k].name {}
    var m' := m[recs[k].name := recs[k].size];
    forall j | 0 <= j < |recs'| && recs'[j].live == live ensures recs'[j].name in m' && m'[recs'[j].name] == recs'[j].size {}
    forall name | name in m'
      ensures exists j :: 0 <= j < |recs'| && recs'[j].name == name && recs'[j].live == live
    {
      if name == recs[k].name {
        assert recs'[k].name == name;
      } else {
        var j :| 0 <= j < |recs| && recs[j].name == name && recs[j].live == live;
        assert recs'[j] == recs[j];
      }
    }
  }

  // ----- reading the file at startup -----

  /** The fields of the i-th record. */
  lemma RecordFields(config: string, recs: seq<Rec>, i: nat)
    requires Stores(config, recs) && i < |recs|
    ensures var p, r := 16 + |Body(recs[..i])|, recs[i];
      && p + 17 + |r.name| <= |config|
      && config[p..p + 8] == NumExtend(|r.name|, 8)
      && config[p + 8..p + 8 + |r.name|] == r.name
      && config[p + 8 + |r.name|..p + 16 + |r.name|] == NumExtend(r.size, 8)
      && config[p + 16 + |r.name|..p + 17 + |r.name|] == Bit(r.live)
      && |Body(recs[..i + 1])| == |Body(recs[..i])| + 17 + |r.name|
  {
    hide Body, NumExtend, Fits, Distinct;
    var p, r := 16 + |Body(recs[..i])|, recs[i];
    BodyAt(recs, i);
    assert recs[..i + 1] == recs[..i] + [r];
    BodyPush(recs[..i], r);
    FieldsOf(NumExtend(|recs|, 8) + NumExtend(Length(recs), 8) + Body(recs[..i]),
             NumExtend(|r.name|, 8), r.name, NumExtend(r.size, 8), Bit(r.live), Body(recs[i + 1..]), config);
  }

  lemma FieldsOf(pre: string, a: string, b: string, c: string, d: string, post: string, config: string)
    requires pre + (a + b + c + d) + post <= config
    ensures var p := |pre|;
      && p + |a| + |b| + |c| + |d| <= |config|
      && config[p..p + |a|] == a
      && config[p + |a|..p + |a| + |b|] == b
      && config[p + |a| + |b|..p + |a| + |b| + |c|] == c
      && config[p + |a| + |b| + |c|..p + |a| + |b| + |c| + |d|] == d
  {
    var all := pre + (a + b + c + d) + post;
    assert forall i :: 0 <= i < |all| ==> config[i] == all[i];
  }

  lemma FileCount(config: string, recs: seq<Rec>)
    requires Stores(config, recs)
    ensures |config| >= 16 && Atoi(config[0..8]) == |recs| && Atoi(config[8..16]) == Length(recs)
  {
    var text := FileText(recs);
    assert config[..|text|] == text;
    assert config[0..8] == text[0..8] == NumExtend(|recs|, 8);
    assert config[8..16] == text[8..16] == NumExtend(Length(recs), 8);
    AtoiNumExtend(|recs|, 8);
    AtoiNumExtend(Length(recs), 8);
  }

  lemma AgreesPush(m: map<string, nat>, recs: seq<Rec>, i: nat, live: bool)
    requires i < |recs| && Distinct(recs) && Agrees(m, recs[..i], live)
    ensures Agrees(if recs[i].live == live then m[recs[i].name := recs[i].size] else m, recs[..i + 1], live)
  {
    var m' := if recs[i].live == live then m[recs[i].name := recs[i].size] else m;
    var some := recs[..i + 1];
    forall k | 0 <= k < |some| && some[k].live == live ensures some[k].name in m' && m'[some[k].name] == some[k].size {
      assert k < i ==> some[k] == recs[..i][k] && recs[k].name != recs[i].name;
    }
    forall name | name in m' ensures exists k :: 0 <= k < |some| && some[k].name == name && some[k].live == live {
      if name in m {
        var k :| 0 <= k < |recs[..i]| && recs[..i][k].name == name && recs[..i][k].live == live;
        assert some[k] == recs[..i][k];
      } else {
        assert some[i].name == name;
      }
    }
  }

  /** Rebuilds the maps from the file. */
  method Startup(config: string, ghost recs: seq<Rec>) returns (fileMap: map<string, nat>, trashMap: map<string, nat>)
    requires Stores(config, recs)
    ensures Agrees(fileMap, recs, true) && Agrees(trashMap, recs, false)
  {
    hide Agrees, Fits, Body, NumExtend, FileText, Atoi;
    fileMap, trashMap := map[], map[];
    AgreesEmpty();
    FileCount(config, recs);
    BodyEmpty();
    var offset := 16;
    var fileNum := Atoi(config[0..8]);
    for i := 0 to fileNum
      invariant offset == 16 + |Body(recs[..i])|
      invariant Agrees(fileMap, recs[..i], true) && Agrees(trashMap, recs[..i], false)
    {
      RecordFields(config, recs, i);
      NumbersFit(recs, i);
      var nameLen := Atoi(config[offset..offset + 8]);
      offset := offset + 8;
      var name := config[offset..offset + nameLen];
      offset := offset + nameLen;
      var size := Atoi(config[offset..offset + 8]);
      offset := offset + 8;
      var valid := config[offset..offset + 1];
      offset := offset + 1;
      AgreesPush(fileMap, recs, i, true);
      AgreesPush(trashMap, recs, i, false);
      if Atoi(valid) == 1 {
        fileMap := fileMap[name := size];
      } else {
        trashMap := trashMap[name := size];
      }
    }
    assert recs[..fileNum] == recs;
  }

  lemma AgreesEmpty()
    ensures Agrees(map[], [], true) && Agrees(map[], [], false)
  {}

  lemma NumbersFit(recs: seq<Rec>, i: nat)
    requires Fits(recs) && i < |recs|
    ensures Atoi(NumExtend(|recs[i].name|, 8)) == |recs[i].name| && Atoi(NumExtend(recs[i].size, 8)) == recs[i].size
    ensures Atoi(Bit(recs[i].live)) == if recs[i].live then 1 else 0
  {
    AtoiNumExtend(|recs[i].name|, 8);
    AtoiNumExtend(recs[i].size, 8);
    AtoiItoa(1);
    AtoiItoa(0);
    assert Itoa(1) == "1" && Itoa(0) == "0";
  }

  // ----- changing the file -----

  lemma WritePrefix(a: string, b: string, c: string, d: string, config: string)
    requires a + b + c <= config && |a| == 8 && |b| == 8
    ensures forall a': string, b': string :: |a'| == 8 && |b'| == 8 ==>
      && |Splice(config, 0, a')| >= |a + b + c|
      && |Splice(Splice(config, 0, a'), |a + b + c|, d)| >= 8
      && a' + b' + (c + d) <= Splice(Splice(Splice(config, 0, a'), |a + b + c|, d), 8, b')
  {
    forall a': string, b': string | |a'| == 8 && |b'| == 8
      ensures |Splice(config, 0, a')| >= |a + b + c|
      ensures |Splice(Splice(config, 0, a'), |a + b + c|, d)| >= 8
      ensures a' + b' + (c + d) <= Splice(Splice(Splice(config, 0, a'), |a + b + c|, d), 8, b')
    {
      var n := 16 + |c|;
      assert config[16..n] == c by { assert config[..n] == a + b + c; }
      var t1 := Splice(config, 0, a');
      assert t1[..8] == a' && t1[16..n] == c;
      var t2 := Splice(t1, n, d);
      assert t2[..8] == a' && t2[16..n] == c && t2[n..n + |d|] == d;
      var t3 := Splice(t2, 8, b');
      assert t3[..8] == a' && t3[8..16] == b' && t3[16..n] == c && t3[n..n + |d|] == d;
      assert t3[..n + |d|] == a' + b' + (c + d);
    }
  }

  /** Appending a record and raising the two counts. */
  lemma CreateText(config: string, recs: seq<Rec>, r: Rec)
    requires FileText(recs) <= config
    ensures var num, len := NumExtend(|recs| + 1, 8), NumExtend(Length(recs) + |Encode(r)|, 8);
      && |Splice(config, 0, num)| >= Length(recs)
      && |Splice(Splice(config, 0, num), Length(recs), Encode(r))| >= 8
      && FileText(recs + [r]) <= Splice(Splice(Splice(config, 0, num), Length(recs), Encode(r)), 8, len)
  {
    hide NumExtend, Body, Splice, Encode;
    BodyPush(recs, r);
    WritePrefix(NumExtend(|recs|, 8), NumExtend(Length(recs), 8), Body(recs), Encode(r), config);
  }

  function Removed(recs: seq<Rec>, k: nat): seq<Rec>
    requires k < |recs|
  {
    recs[..k] + recs[k + 1..]
  }

  /** The text without the k-th record, as the handler cuts it out. */
  lemma RemoveText(recs: seq<Rec>, k: nat)
    requires k < |recs|
    ensures var start, delLen := NameAt(recs, k) - 8, 17 + |recs[k].name|;
      && 16 <= start && start + delLen <= |FileText(recs)|
      && Length(Removed(recs, k)) == Length(recs) - delLen
      && FileText(Removed(recs, k)) == NumExtend(|recs| - 1, 8) + NumExtend(Length(recs) - delLen, 8)
           + FileText(recs)[16..start] + FileText(recs)[start + delLen..]
  {
    hide Body, NumExtend;
    BodyAt(recs, k);
    BodyAppend(recs[..k], recs[k + 1..]);
    var text := FileText(recs);
    var start, delLen := NameAt(recs, k) - 8, 17 + |recs[k].name|;
    assert text == NumExtend(|recs|, 8) + NumExtend(Length(recs), 8) + Body(recs[..k]) + Encode(recs[k]) + Body(recs[k + 1..]);
    assert text[16..start] == Body(recs[..k]);
    assert text[start + delLen..] == Body(recs[k + 1..]);
  }

  /** The text that the handler writes back to remove a name; none where a slice would be out of range (or the
      counts too small, which they never are for a stored name). */
  function CutText(text: string, name: string): Option<string>
    requires |text| >= 16
  {
    var delLen, start := 17 + |name|, Index(text, name) - 8;
    var fileNum, fileLen := Atoi(text[0..8]), Atoi(text[8..16]);
    if 16 <= start && start + delLen <= |text| && 0 < fileNum && delLen <= fileLen
    then Some(NumExtend(fileNum - 1, 8) + NumExtend(fileLen - delLen, 8) + text[16..start] + text[start + delLen..])
    else None
  }

  /** Cutting the same length out of a text at two places gives the same text exactly when what lies between
      the places repeats at that distance. */
  lemma CutTwoPlaces(head: string, text: string, a: nat, b: nat, n: nat)
    requires 16 <= a <= b && b + n <= |text|
    ensures head + text[16..a] + text[a + n..] == head + text[16..b] + text[b + n..] <==> text[a..b] == text[a + n..b + n]
  {
    var front, back := head + text[16..a], text[b + n..];
    assert text[a + n..] == text[a + n..b + n] + back;
    assert text[16..b] == text[16..a] + text[a..b];
    var one, two := front + text[a + n..], head + text[16..b] + back;
    assert one == front + text[a + n..b + n] + back;
    assert two == front + text[a..b] + back;
    assert one[|front|..|front| + (b - a)] == text[a + n..b + n];
    assert two[|front|..|front| + (b - a)] == text[a..b];
  }

  lemma FirstFound(recs: seq<Rec>, k: nat)
    requires k < |recs|
    ensures 0 <= Index(FileText(recs), recs[k].name) <= NameAt(recs, k)
  {
    hide FileText, Index;
    NameStands(recs, k);
    IndexIs(FileText(recs), recs[k].name);
  }

  /** Cutting out a file panics exactly when its name first occurs in the header or in the first length field;
      otherwise it gives the text without its record if and only if the text between the first occurrence and the
      record's own name repeats at the distance of the record's length. */
  lemma CutExact(recs: seq<Rec>, k: nat)
    requires k < |recs| && Fits(recs)
    ensures |FileText(recs)| >= 16
    ensures var text, own, n := FileText(recs), NameAt(recs, k) - 8, 17 + |recs[k].name|;
      var start := Index(text, recs[k].name) - 8;
      && start <= own && own + n <= |text|
      && (CutText(text, recs[k].name).None? <==> start < 16)
      && (CutText(text, recs[k].name) == Some(FileText(Removed(recs, k))) <==>
           start >= 16 && text[start..own] == text[start + n..own + n])
  {
    hide FileText, Index, NumExtend, Atoi, Body, Fits, NameAt;
    var text, own, n := FileText(recs), NameAt(recs, k) - 8, 17 + |recs[k].name|;
    HeaderNumbers(recs);
    FirstFound(recs, k);
    RemoveText(recs, k);
    var start := Index(text, recs[k].name) - 8;
    if start >= 16 {
      CutTwoPlaces(NumExtend(|recs| - 1, 8) + NumExtend(Length(recs) - n, 8), text, start, own, n);
    }
  }

  lemma HeaderNumbers(recs: seq<Rec>)
    requires Fits(recs)
    ensures var text := FileText(recs);
      |text| == Length(recs) && |text| >= 16 && Atoi(text[0..8]) == |recs| && Atoi(text[8..16]) == Length(recs)
  {
    hide Body, NumExtend;
    var text := FileText(recs);
    AtoiNumExtend(|recs|, 8);
    AtoiNumExtend(Length(recs), 8);
    assert text[0..8] == NumExtend(|recs|, 8) && text[8..16] == NumExtend(Length(recs), 8);
  }

  /** A file called "b" behind one called "ab" is not cut out: the cut starts inside the other record. */
  lemma CutNested(size: nat)
    requires size < Pow10(8)
    ensures var recs := [Rec("ab", size, true), Rec("b", size, false)];
      && Fits(recs) && Distinct(recs) && |FileText(recs)| >= 16
      && CutText(FileText(recs), "b").Some? && CutText(FileText(recs), "b") != Some(FileText(Removed(recs, 1)))
  {
    hide NumExtend, Index, Body, CutText;
    var recs := [Rec("ab", size, true), Rec("b", size, false)];
    NestedText(size);
    NestedIndex(size);
    CutExact(recs, 1);
    var text := FileText(recs);
    assert text[17..35][7] == 'a';
    assert text[35..53][7] == NumExtend(1, 8)[7];
    Pow10Eight();
    AtoiNumExtend(1, 8);
  }

  lemma NestedText(size: nat)
    requires size < Pow10(8)
    ensures var recs := [Rec("ab", size, true), Rec("b", size, false)];
      && Fits(recs) && NameAt(recs, 1) == 43
      && FileText(recs) == NumExtend(2, 8) + NumExtend(53, 8) + NumExtend(2, 8) + "ab" + NumExtend(size, 8) + "1"
           + NumExtend(1, 8) + "b" + NumExtend(size, 8) + "0"
  {
    hide NumExtend, Body;
    var one, two := Rec("ab", size, true), Rec("b", size, false);
    Pow10Eight();
    BodyEmpty();
    BodyPush([], one);
    BodyPush([one], two);
    assert [] + [one] == [one] && [one] + [two] == [one, two];
    assert [one, two][..1] == [one];
  }

  lemma NestedIndex(size: nat)
    requires size < Pow10(8)
    ensures Index(FileText([Rec("ab", size, true), Rec("b", size, false)]), "b") == 25
  {
    hide NumExtend, Index, FileText;
    var text := FileText([Rec("ab", size, true), Rec("b", size, false)]);
    NestedText(size);
    Pow10Eight();
    AtoiNumExtend(2, 8);
    AtoiNumExtend(53, 8);
    assert text[0..8] == NumExtend(2, 8) && text[8..16] == NumExtend(53, 8) && text[16..24] == NumExtend(2, 8);
    assert text[24] == 'a' && text[25..26] == "b";
    forall q | 0 <= q < 25 ensures !At(text, "b", q) {
      assert text[q] == if q < 8 then text[0..8][q] else if q < 16 then text[8..16][q - 8] else if q < 24 then text[16..24][q - 16] else 'a';
      assert text[q..q + 1][0] == text[q] != 'b';
    }
    IndexUnique(text, "b", 25);
  }

  lemma RemoveKeeps(recs: seq<Rec>, k: nat)
    requires k < |recs| && Fits(recs) && Distinct(recs)
    ensures Fits(Removed(recs, k)) && Distinct(Removed(recs, k))
  {
    hide Body, NumExtend, FileText, Removed;
    RemoveText(recs, k);
    RemovedAt(recs, k);
  }

  lemma RemoveAgrees(recs: seq<Rec>, k: nat, m: map<string, nat>, live: bool)
    requires k < |recs| && Distinct(recs) && Agrees(m, recs, live)
    ensures Agrees(if recs[k].live == live then m - {recs[k].name} else m, Removed(recs, k), live)
  {
    hide Removed, Distinct;
    RemovedAt(recs, k);
    OthersNamed(recs, k);
    var recs' := Removed(recs, k);
    var m' := if recs[k].live == live then m - {recs[k].name} else m;
    forall j | 0 <= j < |recs'| && recs'[j].live == live ensures recs'[j].name in m' && m'[recs'[j].name] == recs'[j].size {
      var i := if j < k then j else j + 1;
      assert recs'[j] == recs[i] && recs[i].name in m;
    }
    forall name | name in m' ensures exists j :: 0 <= j < |recs'| && recs'[j].name == name && recs'[j].live == live {
      var i :| 0 <= i < |recs| && recs[i].name == name && recs[i].live == live;
      assert recs'[if i < k then i else i - 1] == recs[i];
    }
  }

  lemma OthersNamed(recs: seq<Rec>, k: nat)
    requires k < |recs| && Distinct(recs)
    ensures forall i :: 0 <= i < |recs| && i != k ==> recs[i].name != recs[k].name
  {}

  lemma RemovedAt(recs: seq<Rec>, k: nat)
    requires k < |recs|
    ensures |Removed(recs, k)| == |recs| - 1
    ensures forall i :: 0 <= i < |recs| - 1 ==> Removed(recs, k)[i] == recs[if i < k then i else i + 1]
  {}

  lemma PushKeeps(recs: seq<Rec>, r: Rec)
    requires Fits(recs) && Distinct(recs) && Length(recs) + |Encode(r)| < Pow10(8)
    requires |r.name| < Pow10(8) && r.size < Pow10(8) && forall k :: 0 <= k < |recs| ==> recs[k].name != r.name
    ensures Fits(recs + [r]) && Distinct(recs + [r])
  {
    hide Body, NumExtend;
    BodyPush(recs, r);
    BodyCounts(recs + [r]);
  }

  lemma {:induction false} BodyCounts(recs: seq<Rec>)
    ensures |Body(recs)| >= |recs|
  {
    if recs != [] {
      BodyCounts(recs[..|recs| - 1]);
    }
  }

  // ----- the handlers -----

  datatype CreateReply = Recovered | AlreadyExists | Created

  /** The first occurrence of the name in the file is its own name field. */
  ghost predicate FindsOwn(recs: seq<Rec>, name: string) {
    forall k :: 0 <= k < |recs| && recs[k].name == name ==> FirstIsOwn(recs, k)
  }

  lemma {:induction false} SetBitPrefix(config: string, text: string, name: string, live: bool)
    requires text <= config && Index(text, name) >= 0 && Index(text, name) + |name| + 8 < |text|
    ensures var pos := Index(text, name) + |name| + 8;
      SetBit(text, name, live) <= Splice(config, pos, Bit(live))
  {
    var pos := Index(text, name) + |name| + 8;
    var config' := Splice(config, pos, Bit(live));
    var text' := SetBit(text, name, live);
    assert forall i :: 0 <= i < |text| ==> config'[i] == if i == pos then Bit(live)[0] else config[i];
    assert config'[..|text|] == text';
  }

  class Backend {
    var config: string              // the catalogue file
    var fileMap: map<string, nat>   // sizes of the live files
    var trashMap: map<string, nat>  // sizes of the trashed files
    var stored: set<string>         // the names that the file system knows
    ghost var recs: seq<Rec>        // the records in the catalogue file

    /** The catalogue file, the two maps and the file system agree. */
    ghost predicate Valid()
      reads this
    {
      && Stores(config, recs) && Agrees(fileMap, recs, true) && Agrees(trashMap, recs, false)
      && forall k :: 0 <= k < |recs| ==> recs[k].name in stored
    }

    /** The first start: an empty catalogue, stored beside the log. */
    constructor ()
      ensures Valid() && recs == [] && fileMap == map[] && trashMap == map[]
      ensures stored == {"config", "gDocLog"}
    {
      config := NumExtend(0, 8) + NumExtend(16, 8);
      fileMap, trashMap := map[], map[];
      stored := {"config", "gDocLog"};
      recs := [];
      new;
      assert Pow10(8) == 100_000_000 by { Pow10Eight(); }
      BodyEmpty();
      assert NumExtend(0, 8) + NumExtend(16, 8) + Body([]) == config;
    }

    /** Writes a valid bit where the first occurrence of the name says it is. */
    method ChangeValidBit(fileName: string, live: bool, ghost k: nat)
      requires Stores(config, recs) && k < |recs| && recs[k].name == fileName && recs[k].live != live && FirstIsOwn(recs, k)
      modifies this`config
      ensures Stores(config, Flip(recs, k, live))
    {
      hide Fits, Distinct, Body, NumExtend, Index, Atoi;
      FileCount(config, recs);
      FlipText(recs, k, live);
      FlipKeeps(recs, k, live);
      SetBitExact(recs, k, live);
      var totalLen := Atoi(config[8..16]);
      var configStr := config[0..totalLen];
      assert configStr == FileText(recs);
      SetBitPrefix(config, configStr, fileName, live);
      var fileNamePos := Index(configStr, fileName);
      var validBitPos := fileNamePos + |fileName| + 8;
      config := Splice(config, validBitPos, Bit(live));
    }

    /** Moves a live file to the trash, unless someone has it open. */
    method MoveToTrash(name: string, open_: bool) returns (moved: bool)
      requires Valid()
      requires !open_ ==> name in fileMap && FindsOwn(recs, name)
      modifies this`config, this`fileMap, this`trashMap, this`recs
      ensures Valid() && moved == !open_
      ensures open_ ==> fileMap == old(fileMap) && trashMap == old(trashMap)
      ensures !open_ ==> fileMap == old(fileMap) - {name} && trashMap == old(trashMap)[name := old(fileMap)[name]]
    {
      hide Stores, FirstIsOwn, Agrees, Distinct;
      if open_ {
        return false;
      }
      ghost var k := FindRec(recs, fileMap, true, name);
      StoresDistinct(config, recs);
      FlipLeaves(recs, k, fileMap, true);
      FlipJoins(recs, k, trashMap, false);
      trashMap := trashMap[name := fileMap[name]];
      fileMap := fileMap - {name};
      ChangeValidBit(name, false, k);
      recs := Flip(recs, k, false);
      return true;
    }

    /** Brings a trashed file back. */
    method RecoverFile(name: string)
      requires Valid() && name in trashMap && FindsOwn(recs, name)
      modifies this`config, this`fileMap, this`trashMap, this`recs
      ensures Valid()
      ensures trashMap == old(trashMap) - {name} && fileMap == old(fileMap)[name := old(trashMap)[name]]
    {
      hide Stores, FirstIsOwn, Agrees, Distinct;
      ghost var k := FindRec(recs, trashMap, false, name);
      StoresDistinct(config, recs);
      FlipLeaves(recs, k, trashMap, false);
      FlipJoins(recs, k, fileMap, true);
      fileMap := fileMap[name := trashMap[name]];
      trashMap := trashMap - {name};
      ChangeValidBit(name, true, k);
      recs := Flip(recs, k, true);
    }

    /** Creates a file; a trashed file of that name is recovered instead. */
    method HandleCreate(name: string) returns (reply: CreateReply)
      requires Valid()
      requires name in trashMap ==> FindsOwn(recs, name)
      requires Length(recs) + 17 + |name| < Pow10(8)
      modifies this
      ensures Valid()
      ensures stored == if reply == Created then old(stored) + {name} else old(stored)
      ensures reply == Recovered <==> name in old(trashMap)
      ensures reply == AlreadyExists <==> name !in old(trashMap) && name in old(stored)
      ensures reply == Recovered ==> trashMap == old(trashMap) - {name} && fileMap == old(fileMap)[name := old(trashMap)[name]]
      ensures reply == AlreadyExists ==> fileMap == old(fileMap) && trashMap == old(trashMap)
      ensures reply == Created ==> fileMap == old(fileMap)[name := UndoLog.SIZE] && trashMap == old(trashMap)
    {
      hide Fits, Distinct, Body, NumExtend, Agrees, Atoi, FileText;
      if name in trashMap {
        RecoverFile(name);
        return Recovered;
      }
      if name in stored {
        return AlreadyExists;
      }
      ghost var r := Rec(name, DEFAULT_SIZE, true);
      CreateKeeps(config, recs, fileMap, trashMap, r);
      FileCount(config, recs);
      CreateText(config, recs, r);
      stored := stored + {name};
      fileMap := fileMap[name := DEFAULT_SIZE];
      var fileNum := Atoi(config[0..8]);
      var totalLen := Atoi(config[8..16]);
      config := Splice(config, 0, NumExtend(fileNum + 1, 8));
      var strWrite := NumExtend(|name|, 8) + name + NumExtend(DEFAULT_SIZE, 8) + "1";
      HeaderStays(old(config), recs, NumExtend(fileNum + 1, 8));
      config := Splice(config, totalLen, strWrite);
      totalLen := totalLen + |strWrite|;
      config := Splice(config, 8, NumExtend(totalLen, 8));
      recs := recs + [r];
      return Created;
    }

    /** Removes a trashed file for good. */
    method ClearTrash(name: string) returns (cleared: bool)
      requires Valid()
      requires name in trashMap ==> FindsOwn(recs, name)
      modifies this
      ensures Valid() && (cleared <==> name in old(trashMap))
      ensures fileMap == old(fileMap) && trashMap == old(trashMap) - {name}
      ensures stored == if cleared then old(stored) - {name} else old(stored)
    {
      hide Stores, FirstIsOwn, Agrees, Distinct, Removed;
      if name !in trashMap {
        return false;
      }
      ghost var k := FindRec(recs, trashMap, false, name);
      StoresDistinct(config, recs);
      RemoveAgrees(recs, k, fileMap, true);
      RemoveAgrees(recs, k, trashMap, false);
      trashMap := trashMap - {name};
      CutRecord(name, k);
      stored := stored - {name};
      StoredStays(recs, k, old(stored));
      recs := Removed(recs, k);
      return true;
    }

    /** Writes the catalogue file anew without one record. */
    method CutRecord(name: string, ghost k: nat)
      requires Stores(config, recs) && k < |recs| && recs[k].name == name && FirstIsOwn(recs, k)
      modifies this`config
      ensures Stores(config, Removed(recs, k))
    {
      hide Fits, Distinct, Body, NumExtend, Atoi, FileText, Index, Removed, Splice, NameAt, Length;
      RemoveKeeps(recs, k);
      RemoveText(recs, k);
      FileCount(config, recs);
      TextLength(recs);
      var delLen := 8 + |name| + 8 + 1;
      var totalLen := Atoi(config[8..16]);
      var configStr := config[0..totalLen];
      assert configStr == FileText(recs);
      HeaderOf(config, configStr, recs);
      var fileNum := Atoi(configStr[0..8]);
      var fileLen := Atoi(configStr[8..16]);
      var newFileNum := NumExtend(fileNum - 1, 8);
      var newFileLen := NumExtend(fileLen - delLen, 8);
      var startPos := Index(configStr, name) - 8;
      var endPos := startPos + delLen;
      var frontStr := configStr[16..startPos];
      var backStr := configStr[endPos..];
      var newConfigStr := newFileNum + newFileLen + frontStr + backStr;
      WriteStart(config, newConfigStr);
      config := Splice(config, 0, newConfigStr);
    }

    /** A restart rebuilds the same maps, and the counts in the file match the records. */
    method Restart() returns (files: map<string, nat>, trash: map<string, nat>)
      requires Valid()
      ensures files == fileMap && trash == trashMap
      ensures |config| >= 16 && Atoi(config[0..8]) == |recs| && Atoi(config[8..16]) == Length(recs)
    {
      files, trash := Startup(config, recs);
      AgreesOnce(files, fileMap, recs, true);
      AgreesOnce(trash, trashMap, recs, false);
      FileCount(config, recs);
    }
  }

  lemma WriteStart(s: string, data: string)
    ensures data <= Splice(s, 0, data)
  {}

  lemma FindRec(recs: seq<Rec>, m: map<string, nat>, live: bool, name: string) returns (k: nat)
    requires Agrees(m, recs, live) && name in m
    ensures k < |recs| && recs[k].name == name && recs[k].live == live && recs[k].size == m[name]
  {
    k :| 0 <= k < |recs| && recs[k].name == name && recs[k].live == live;
  }

  lemma Pow10Eight()
    ensures Pow10(8) == 100_000_000
  {
    assert Pow10(2) == 100;
    assert Pow10(4) == 10_000;
    assert Pow10(6) == 1_000_000;
  }

  lemma StoresDistinct(config: string, recs: seq<Rec>)
    requires Stores(config, recs)
    ensures Distinct(recs)
  {}

  lemma TextLength(recs: seq<Rec>)
    ensures |FileText(recs)| == Length(recs)
  {}

  lemma HeaderOf(config: string, configStr: string, recs: seq<Rec>)
    requires Stores(config, recs) && configStr == FileText(recs)
    ensures |configStr| >= 16 && Atoi(configStr[0..8]) == |recs| && Atoi(configStr[8..16]) == Length(recs)
  {
    FileCount(configStr, recs);
  }

  lemma HeaderStays(config: string, recs: seq<Rec>, num: string)
    requires FileText(recs) <= config && |num| == 8
    ensures |Splice(config, 0, num)| >= Length(recs)
  {}

  lemma CreateKeeps(config: string, recs: seq<Rec>, fileMap: map<string, nat>, trashMap: map<string, nat>, r: Rec)
    requires Stores(config, recs) && Agrees(fileMap, recs, true) && Agrees(trashMap, recs, false)
    requires r.live && r.size == DEFAULT_SIZE && Length(recs) + 17 + |r.name| < Pow10(8)
    requires forall k :: 0 <= k < |recs| ==> recs[k].name != r.name
    ensures Fits(recs + [r]) && Distinct(recs + [r])
    ensures Agrees(fileMap[r.name := r.size], recs + [r], true) && Agrees(trashMap, recs + [r], false)
  {
    hide Body, NumExtend;
    Pow10Eight();
    PushKeeps(recs, r);
    var all := recs + [r];
    assert all[..|recs|] == recs && all[..|recs| + 1] == all;
    AgreesPush(fileMap, all, |recs|, true);
    AgreesPush(trashMap, all, |recs|, false);
  }

  lemma StoredStays(recs: seq<Rec>, k: nat, stored: set<string>)
    requires k < |recs| && Distinct(recs) && forall i :: 0 <= i < |recs| ==> recs[i].name in stored
    ensures forall i :: 0 <= i < |Removed(recs, k)| ==> Removed(recs, k)[i].name in stored - {recs[k].name}
  {
    RemovedAt(recs, k);
  }
}
