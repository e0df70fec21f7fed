/**
 The string operations that the document backend builds its log and its catalogue with:
 searching, decimal numbers of fixed width, padding and splitting at tabs.
 */
module Text {

  // ----- searching -----

  /** `sub` stands at position p of s. */
  predicate At(s: string, sub: string, p: int) {
    0 <= p && p + |sub| <= |s| && s[p..p + |sub|] == sub
  }

  ghost predicate Contains(s: string, sub: string) {
    exists p :: At(s, sub, p)
  }

  lemma AtInside(s: string, outer: string, inner: string, q: int, p: int)
    requires At(s, outer, q) && At(outer, inner, p)
    ensures At(s, inner, q + p)
  {
    forall i | 0 <= i < |inner| ensures s[q + p + i] == inner[i] {
      assert outer[p + i] == s[q..q + |outer|][p + i];
      assert inner[i] == outer[p..p + |inner|][i];
    }
  }

  function IndexFrom(s: string, sub: string, from: nat): int
    decreases |s| - from
  {
    if from + |sub| > |s| then -1
    else if At(s, sub, from) then from
    else IndexFrom(s, sub, from + 1)
  }

  /** The first position of `sub` in s, or -1. */
  function Index(s: string, sub: string): int {
    IndexFrom(s, sub, 0)
  }

  lemma {:induction false} IndexFromIs(s: string, sub: string, from: nat)
    ensures var p := IndexFrom(s, sub, from);
      && (p == -1 ==> forall q :: from <= q ==> !At(s, sub, q))
      && (p != -1 ==> from <= p && At(s, sub, p) && forall q :: from <= q < p ==> !At(s, sub, q))
    decreases |s| - from
  {
    if from + |sub| <= |s| && !At(s, sub, from) {
      IndexFromIs(s, sub, from + 1);
    }
  }

  /** `Index` finds the first occurrence, and -1 means that there is none. */
  lemma IndexIs(s: string, sub: string)
    ensures Index(s, sub) == -1 <==> !Contains(s, sub)
    ensures Index(s, sub) != -1 ==> At(s, sub, Index(s, sub)) && forall q :: 0 <= q < Index(s, sub) ==> !At(s, sub, q)
  {
    IndexFromIs(s, sub, 0);
  }

  lemma IndexUnique(s: string, sub: string, p: int)
    requires At(s, sub, p) && forall q :: 0 <= q < p ==> !At(s, sub, q)
    ensures Index(s, sub) == p
  {
    IndexIs(s, sub);
  }

  /** A word does not straddle a boundary whose characters it cannot have there. */
  ghost predicate Apart(a: string, b: string, sub: string)
    requires sub != ""
  {
    || a == "" || b == ""
    || a[|a| - 1] !in sub[..|sub| - 1]
    || b[0] !in sub[1..]
  }

  lemma AvoidConcat(a: string, b: string, sub: string)
    requires sub != "" && Apart(a, b, sub)
    requires !Contains(a, sub) && !Contains(b, sub)
    ensures !Contains(a + b, sub)
  {
    forall p ensures !At(a + b, sub, p) {
      if At(a + b, sub, p) {
        AtConcat(a, b, sub, p);
      }
    }
  }

  lemma AtConcat(a: string, b: string, sub: string, p: int)
    requires sub != "" && Apart(a, b, sub) && At(a + b, sub, p)
    ensures At(a, sub, p) || At(b, sub, p - |a|)
  {
    var s := a + b;
    if p + |sub| <= |a| {
      assert a[p..p + |sub|] == s[p..p + |sub|];
    } else if p >= |a| {
      assert b[p - |a|..p - |a| + |sub|] == s[p..p + |sub|];
    } else {
      Straddle(a, b, sub, p);
      assert false;
    }
  }

  lemma Straddle(a: string, b: string, sub: string, p: int)
    requires At(a + b, sub, p) && p < |a| < p + |sub|
    ensures a[|a| - 1] in sub[..|sub| - 1] && b != "" && b[0] in sub[1..]
  {
    var s := a + b;
    assert s[p..p + |sub|][|a| - 1 - p] == a[|a| - 1];
    assert s[p..p + |sub|][|a| - p] == b[0];
    assert sub[..|sub| - 1][|a| - 1 - p] == a[|a| - 1];
    assert sub[1..][|a| - p - 1] == b[0];
  }

  /** A text without one of the word's characters does not contain the word. */
  lemma AvoidChar(a: string, sub: string, c: char)
    requires c in sub && c !in a
    ensures !Contains(a, sub)
  {
    var k :| 0 <= k < |sub| && sub[k] == c;
    forall p ensures !At(a, sub, p) {
      if 0 <= p && p + |sub| <= |a| {
        assert a[p..p + |sub|][k] != sub[k];
      }
    }
  }

  /** After a text that does not contain the word, its first occurrence is the next one, when its
      first letter comes only once in it. */
  lemma IndexAfter(pre: string, sub: string, post: string)
    requires sub != "" && sub[0] !in sub[1..] && !Contains(pre, sub)
    ensures Index(pre + sub + post, sub) == |pre|
  {
    var s := pre + sub + post;
    assert s[|pre|..|pre| + |sub|] == sub;
    forall q | 0 <= q < |pre| ensures !At(s, sub, q) {
      if q + |sub| <= |pre| {
        assert !At(pre, sub, q);
        assert pre[q..q + |sub|] == s[q..q + |sub|];
      } else {
        assert s[q..q + |sub|][|pre| - q] == sub[0] != sub[1..][|pre| - q - 1];
      }
    }
    IndexUnique(s, sub, |pre|);
  }

  // ----- decimal numbers -----

  predicate Digit(c: char) {
    '0' <= c <= '9'
  }

  ghost predicate Digits(s: string) {
    forall i :: 0 <= i < |s| ==> Digit(s[i])
  }

  function DigitOf(n: nat): char
    requires n < 10
  {
    '0' + n as char
  }

  function Itoa(n: nat): (s: string)
    ensures s != "" && Digits(s)
  {
    if n < 10 then [DigitOf(n)] else Itoa(n / 10) + [DigitOf(n % 10)]
  }

  /** The value of a text of digits. */
  function Value(s: string): nat {
    if s == "" then 0
    else 10 * Value(s[..|s| - 1]) +
         (if Digit(s[|s| - 1]) then (s[|s| - 1] as int - '0' as int) as nat else 0)
  }

  predicate AllDigits(s: string) {
    s == "" || (Digit(s[0]) && AllDigits(s[1..]))
  }

  /** The text without a plus sign. Nothing that is read as a number here can have a minus sign. */
  function Unsigned(s: string): string {
    if s != "" && s[0] == '+' then s[1..] else s
  }

  /** Zero for a text that is not a number, as the callers ignore the error. */
  function Atoi(s: string): nat {
    if Unsigned(s) != "" && AllDigits(Unsigned(s)) then Value(Unsigned(s)) else 0
  }

  lemma {:induction false} AllDigitsAt(s: string, i: nat)
    requires i < |s| && AllDigits(s)
    ensures Digit(s[i])
  {
    if i > 0 {
      AllDigitsAt(s[1..], i - 1);
    }
  }

  /** A text with a character that is neither a digit nor a leading plus sign reads as zero. */
  lemma AtoiMalformed(s: string, i: nat)
    requires i < |s| && !Digit(s[i]) && (i == 0 ==> s[0] != '+')
    ensures Atoi(s) == 0
  {
    var d := Unsigned(s);
    var k := if |d| < |s| then i - 1 else i;
    assert d[k] == s[i];
    if AllDigits(d) {
      AllDigitsAt(d, k);
    }
  }

  lemma {:induction false} DigitsAll(s: string)
    requires Digits(s)
    ensures AllDigits(s)
  {
    if s != "" {
      DigitsAll(s[1..]);
    }
  }

  lemma {:induction false} ItoaValue(n: nat)
    ensures Value(Itoa(n)) == n
  {
    if n >= 10 {
      ItoaValue(n / 10);
      var s := Itoa(n);
      assert s[..|s| - 1] == Itoa(n / 10);
    }
  }

  lemma AtoiItoa(n: nat)
    ensures Atoi(Itoa(n)) == n
  {
    ItoaValue(n);
    DigitsAll(Itoa(n));
  }

  function Repeat(c: char, n: nat): (s: string)
    ensures |s| == n && forall i :: 0 <= i < n ==> s[i] == c
  {
    seq(n, i => c)
  }

  function Pow10(n: nat): (p: nat)
    ensures p > 0
  {
    if n == 0 then 1 else 10 * Pow10(n - 1)
  }

  /** srcNum in aimLen digits: padded with zeros in front, or cut to its last digits. */
  function NumExtend(srcNum: nat, aimLen: nat): (s: string)
    ensures |s| == aimLen
  {
    var temp := Itoa(srcNum);
    if |temp| >= aimLen then temp[|temp| - aimLen..] else Repeat('0', aimLen - |temp|) + temp
  }

  lemma {:induction false} ItoaLength(n: nat, len: nat)
    requires n < Pow10(len) && len > 0
    ensures |Itoa(n)| <= len
  {
    if n >= 10 {
      ItoaLength(n / 10, len - 1);
    }
  }

  lemma {:induction false} ValueZeros(k: nat, s: string)
    ensures Value(Repeat('0', k) + s) == Value(s)
    decreases |s| + k
  {
    var t := Repeat('0', k) + s;
    if s == "" {
      if k > 0 {
        ValueZeros(k - 1, "");
        assert t[..|t| - 1] == Repeat('0', k - 1) + "";
      }
    } else {
      ValueZeros(k, s[..|s| - 1]);
      assert t[..|t| - 1] == Repeat('0', k) + s[..|s| - 1];
    }
  }

  /** A number that fits reads back. */
  lemma AtoiNumExtend(n: nat, len: nat)
    requires n < Pow10(len) && len > 0
    ensures Atoi(NumExtend(n, len)) == n && Digits(NumExtend(n, len))
  {
    ItoaLength(n, len);
    ItoaValue(n);
    var temp := Itoa(n);
    if |temp| < len {
      ValueZeros(len - |temp|, temp);
    } else {
      assert temp[0..] == temp;
    }
    DigitsAll(NumExtend(n, len));
  }

  /** A number that does not fit reads back without its leading digits. */
  lemma AtoiCut(n: nat, len: nat)
    requires len > 0
    ensures Atoi(NumExtend(n, len)) == n % Pow10(len)
  {
    hide Pow10, Itoa, Value, NumExtend, Atoi, Digits;
    if n < Pow10(len) {
      AtoiNumExtend(n, len);
    } else {
      ItoaLong(n, len);
      NumExtendCut(n, len);
      AtoiDigits(NumExtend(n, len));
      LastDigits(n, len);
    }
  }

  lemma NumExtendCut(n: nat, len: nat)
    requires 0 < len <= |Itoa(n)|
    ensures NumExtend(n, len) == Itoa(n)[|Itoa(n)| - len..] && Digits(NumExtend(n, len))
  {
    hide Itoa;
  }

  lemma AtoiDigits(s: string)
    requires s != "" && Digits(s)
    ensures Atoi(s) == Value(s)
  {
    hide Value;
    DigitsAll(s);
  }

  lemma {:induction false} ItoaLong(n: nat, len: nat)
    requires n >= Pow10(len)
    ensures |Itoa(n)| > len
  {
    if len > 0 {
      ItoaLong(n / 10, len - 1);
    }
  }

  lemma {:induction false} LastDigits(n: nat, len: nat)
    requires |Itoa(n)| >= len
    ensures Value(Itoa(n)[|Itoa(n)| - len..]) == n % Pow10(len)
    decreases len
  {
    hide Value, Itoa;
    if len == 0 {
      ValueNone();
      assert Itoa(n)[|Itoa(n)|..] == "";
    } else if n < 10 {
      ItoaDigit(n);
      assert Itoa(n)[0..] == Itoa(n) && Pow10(1) == 10 * Pow10(0) == 10;
      ItoaValue(n);
    } else {
      ItoaStep(n);
      LastDigits(n / 10, len - 1);
      ValueTail(n, len);
      ModTen(n, Pow10(len - 1));
    }
  }

  lemma ValueNone()
    ensures Value("") == 0
  {}

  lemma ItoaDigit(n: nat)
    requires n < 10
    ensures |Itoa(n)| == 1
  {}

  lemma ItoaStep(n: nat)
    requires n >= 10
    ensures Itoa(n) == Itoa(n / 10) + [DigitOf(n % 10)]
  {}

  lemma ValuePush(s: string, d: nat)
    requires d < 10
    ensures Value(s + [DigitOf(d)]) == 10 * Value(s) + d
  {
    assert (s + [DigitOf(d)])[..|s|] == s;
  }

  lemma ValueTail(n: nat, len: nat)
    requires n >= 10 && 0 < len <= |Itoa(n)|
    ensures |Itoa(n / 10)| == |Itoa(n)| - 1
    ensures Value(Itoa(n)[|Itoa(n)| - len..]) == 10 * Value(Itoa(n / 10)[|Itoa(n)| - len..]) + n % 10
  {
    hide Value, Itoa;
    ItoaStep(n);
    var front := Itoa(n / 10);
    var from := |Itoa(n)| - len;
    assert Itoa(n)[from..] == front[from..] + [DigitOf(n % 10)];
    ValuePush(front[from..], n % 10);
  }

  lemma ModTen(n: nat, p: nat)
    requires p > 0
    ensures n % (10 * p) == 10 * (n / 10 % p) + n % 10
  {
    var q, r := n / 10 / p, n / 10 % p;
    assert n == 10 * (q * p + r) + n % 10;
    assert n == q * (10 * p) + (10 * r + n % 10);
    assert 0 <= 10 * r + n % 10 < 10 * p;
    ModIs(n, 10 * p, q, 10 * r + n % 10);
  }

  lemma ModIs(n: nat, d: nat, q: nat, r: nat)
    requires n == q * d + r && r < d
    ensures n % d == r
  {
    var x := n / d - q;
    assert x * d == r - n % d;
    assert x >= 1 ==> x * d >= d;
    assert x <= -1 ==> x * d + d <= 0;
  }

  /** The loop that pads with zeros. */
  method NumExtendLoop(srcNum: nat, aimLen: nat) returns (s: string)
    ensures s == NumExtend(srcNum, aimLen)
  {
    var tempStr := Itoa(srcNum);
    var tempLen := |tempStr|;
    if tempLen >= aimLen {
      return tempStr[tempLen - aimLen..tempLen];
    }
    var zeroStr := "";
    var zeroNum := aimLen - tempLen;
    for i := 0 to zeroNum
      invariant zeroStr == Repeat('0', i)
    {
      zeroStr := zeroStr + "0";
    }
    return zeroStr + tempStr;
  }

  /** The loop that makes a run of spaces. */
  method GetStr(strSize: nat) returns (s: string)
    ensures s == Repeat(' ', strSize)
  {
    s := "";
    for i := 0 to strSize
      invariant s == Repeat(' ', i)
    {
      s := s + " ";
    }
  }

  // ----- separators -----

  /** Position of the last dash, or -1. */
  function LastDash(s: string): (p: int)
    ensures -1 <= p < |s|
    ensures p >= 0 ==> s[p] == '-'
    ensures forall i :: p < i < |s| ==> s[i] != '-'
  {
    if s == "" then -1
    else if s[|s| - 1] == '-' then |s| - 1
    else LastDash(s[..|s| - 1])
  }

  /** Each line followed by a tab. */
  function Join(lines: seq<string>): string {
    if lines == [] then "" else Join(lines[..|lines| - 1]) + lines[|lines| - 1] + "\t"
  }

  /** The pieces between separators, as strings.Split gives them. */
  function Split(s: string, sep: char): (parts: seq<string>)
    ensures parts != []
  {
    if s == "" then [""]
    else
      var c := s[|s| - 1];
      var before := Split(s[..|s| - 1], sep);
      if c == sep then before + [""] else before[|before| - 1 := before[|before| - 1] + [c]]
  }

  lemma {:induction false} SplitLine(s: string, line: string, sep: char)
    requires sep !in line
    ensures var before := Split(s, sep); Split(s + line, sep) == before[|before| - 1 := before[|before| - 1] + line]
  {
    var before := Split(s, sep);
    if line == "" {
      assert s + line == s;
      assert before[|before| - 1] + line == before[|before| - 1];
    } else {
      var init := line[..|line| - 1];
      SplitLine(s, init, sep);
      var t := s + line;
      assert t[..|t| - 1] == s + init;
      assert t[|t| - 1] == line[|line| - 1];
      assert before[|before| - 1] + init + [line[|line| - 1]] == before[|before| - 1] + line;
    }
  }

  /** Splitting gives the lines back, and an empty piece after the last tab. */
  lemma {:induction false} SplitJoin(lines: seq<string>)
    requires forall i :: 0 <= i < |lines| ==> '\t' !in lines[i]
    ensures Split(Join(lines), '\t') == lines + [""]
  {
    if lines != [] {
      var n := |lines| - 1;
      SplitJoin(lines[..n]);
      var s := Join(lines[..n]);
      SplitLine(s, lines[n], '\t');
      var t := s + lines[n] + "\t";
      assert t[..|t| - 1] == s + lines[n] && t[|t| - 1] == '\t';
      assert "" + lines[n] == lines[n];
      assert Split(s + lines[n], '\t') == lines[..n] + [lines[n]];
      assert lines[..n] + [lines[n]] == lines;
    }
  }

  /** A piece behind a further separator. */
  lemma SplitMore(s: string, piece: string, sep: char)
    requires sep !in piece
    ensures Split(s + [sep] + piece, sep) == Split(s, sep) + [piece]
  {
    var t := s + [sep];
    assert t[..|t| - 1] == s && t[|t| - 1] == sep;
    assert Split(t, sep) == Split(s, sep) + [""];
    SplitLine(t, piece, sep);
    assert "" + piece == piece;
  }

  /** There is one piece exactly when there is no separator. */
  lemma {:induction false} SplitOne(s: string, sep: char)
    ensures |Split(s, sep)| == 1 <==> sep !in s
  {
    if s != "" {
      SplitOne(s[..|s| - 1], sep);
      assert s == s[..|s| - 1] + [s[|s| - 1]];
    }
  }

  // ----- stored files -----

  /** A write into a stored file; bytes past its end are added to it. */
  function Splice(s: string, offset: nat, data: string): string
    requires offset <= |s|
  {
    s[..offset] + data + if offset + |data| <= |s| then s[offset + |data|..] else ""
  }
}
