/**
 The bit set of linearized operations: 64-bit words changed in place. A word is its 64 bits,
 least significant first; the meaning of the words is the set of positions whose bit is one.
 */
module Bitset {

  type Word = bits: seq<bool> | |bits| == 64 witness seq(64, i => false)

  const ZERO: Word := seq(64, i => false)

  predicate Get(words: seq<Word>, pos: nat)
    requires pos < 64 * |words|
  {
    words[pos / 64][pos % 64]
  }

  /** The meaning of the words. */
  ghost function Bits(words: seq<Word>): set<nat> {
    set p: nat | p < 64 * |words| && Get(words, p)
  }

  method NewBitset(bits: nat) returns (b: array<Word>)
    ensures fresh(b)
    ensures 64 * b.Length >= bits && 64 * b.Length < bits + 64
    ensures Bits(b[..]) == {}
  {
    var extra := 0;
    if bits % 64 != 0 {
      extra := 1;
    }
    var chunks := bits / 64 + extra;
    b := new Word[chunks](_ => ZERO);
  }

  method Clone(b: array<Word>) returns (copy: array<Word>)
    ensures fresh(copy) && copy[..] == b[..]
  {
    copy := new Word[b.Length](_ => ZERO);
    for i := 0 to b.Length
      invariant copy[..i] == b[..i]
      invariant fresh(copy)
    {
      copy[i] := b[i];
    }
  }

  lemma PositionsDiffer(p: nat, q: nat)
    requires p != q && p / 64 == q / 64
    ensures p % 64 != q % 64
  {}

  /** Writing one bit of the words changes exactly one member of the set. */
  lemma WriteBit(words: seq<Word>, pos: nat, bit: bool)
    requires pos < 64 * |words|
    ensures var words' := words[pos / 64 := words[pos / 64][pos % 64 := bit]];
            Bits(words') == if bit then Bits(words) + {pos} else Bits(words) - {pos}
  {
    var words' := words[pos / 64 := words[pos / 64][pos % 64 := bit]];
    forall p: nat | p < 64 * |words|
      ensures Get(words', p) == if p == pos then bit else Get(words, p)
    {
      if p != pos && p / 64 == pos / 64 {
        PositionsDiffer(p, pos);
      }
    }
  }

  method Set(b: array<Word>, pos: nat)
    requires pos < 64 * b.Length
    modifies b
    ensures Bits(b[..]) == old(Bits(b[..])) + {pos}
  {
    WriteBit(b[..], pos, true);
    var major, minor := pos / 64, pos % 64;
    ghost var words := b[..];
    b[major] := b[major][minor := true];
    assert b[..] == words[pos / 64 := words[pos / 64][pos % 64 := true]];
  }

  method Clear(b: array<Word>, pos: nat)
    requires pos < 64 * b.Length
    modifies b
    ensures Bits(b[..]) == old(Bits(b[..])) - {pos}
  {
    WriteBit(b[..], pos, false);
    var major, minor := pos / 64, pos % 64;
    ghost var words := b[..];
    b[major] := b[major][minor := false];
    assert b[..] == words[pos / 64 := words[pos / 64][pos % 64 := false]];
  }

  /** The words are determined by their length and their meaning. */
  lemma BitsExtensional(v: seq<Word>, w: seq<Word>)
    requires |v| == |w| && Bits(v) == Bits(w)
    ensures v == w
  {
    forall i, j | 0 <= i < |v| && 0 <= j < 64 ensures v[i][j] == w[i][j] {
      var p := 64 * i + j;
      assert p / 64 == i && p % 64 == j;
      assert Get(v, p) <==> p in Bits(v);
      assert Get(w, p) <==> p in Bits(w);
    }
    forall i | 0 <= i < |v| ensures v[i] == w[i] {}
  }

  method Equals(b: array<Word>, b2: array<Word>) returns (eq: bool)
    ensures eq <==> b[..] == b2[..]
    ensures eq <==> b.Length == b2.Length && Bits(b[..]) == Bits(b2[..])
  {
    if b.Length != b2.Length {
      return false;
    }
    for i := 0 to b.Length
      invariant b[..i] == b2[..i]
    {
      if b[i] != b2[i] {
        assert b[..][i] != b2[..][i];
        if Bits(b[..]) == Bits(b2[..]) {
          BitsExtensional(b[..], b2[..]);
        }
        return false;
      }
    }
    assert b[..] == b[..b.Length] && b2[..] == b2[..b.Length];
    return true;
  }
}
