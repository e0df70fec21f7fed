/**
 The file system client: a file is a set of one-megabyte chunks kept by chunk servers, and read and write
 cut a range of the file into pieces, one per chunk.  The reference view is one flat array of bytes in
 which every byte that was never written is zero.
 */
module GfsFile {
  const CHUNK: nat := 1024 * 1024
  const WORD: nat := 0x1_0000_0000_0000_0000
  const ZERO: char := 0 as char

  type Chunks = map<nat, string>

  ghost predicate Valid(chunks: Chunks) {
    forall k :: k in chunks ==> |chunks[k]| == CHUNK
  }

  /** The flat file. */
  function ByteAt(chunks: Chunks, p: nat): char {
    if p / CHUNK in chunks && p % CHUNK < |chunks[p / CHUNK]| then chunks[p / CHUNK][p % CHUNK] else ZERO
  }

  ghost function Slice(chunks: Chunks, offset: nat, n: nat): (s: string)
    ensures |s| == n
  {
    seq(n, i requires 0 <= i < n => ByteAt(chunks, offset + i))
  }

  /** Chunk k holds some byte of the range. */
  predicate Touches(k: nat, offset: nat, n: nat) {
    n > 0 && k * CHUNK < offset + n && offset < k * CHUNK + CHUNK
  }

  /** The flat file with data spliced in; exactly the touched chunks exist in addition. */
  ghost predicate Spliced(before: Chunks, after: Chunks, offset: nat, data: string) {
    && Valid(after)
    && (forall k: nat :: k in after <==> k in before || Touches(k, offset, |data|))
    && (forall p: nat :: ByteAt(after, p) == if offset <= p < offset + |data| then data[p - offset] else ByteAt(before, p))
  }

  // ----- a chunk server -----

  function Zeros(n: nat): (s: string)
    ensures |s| == n && forall i :: 0 <= i < n ==> s[i] == ZERO
  {
    seq(n, _ => ZERO)
  }

  /** A new chunk: seek to the last byte and write one zero. */
  function NewChunk(): (s: string)
    ensures |s| == CHUNK
  {
    Zeros(CHUNK - 1) + [ZERO]
  }

  /** The last position of a piece, as the client computes it in 64 bits. */
  function LastByte(begin: nat, n: nat): nat {
    (begin + n - 1) % WORD
  }

  /** Overwrites part of a chunk file. */
  function Overwritten(chunk: string, begin: nat, data: string): (s: string)
    requires begin + |data| <= |chunk|
    ensures |s| == |chunk|
    ensures forall i :: 0 <= i < |s| ==> s[i] == if begin <= i < begin + |data| then data[i - begin] else chunk[i]
  {
    chunk[..begin] + data + chunk[begin + |data|..]
  }

  /** Reads into a zeroed buffer: the file reads as if zeros followed it. */
  function ReadChunk(chunk: string, begin: nat, n: nat): (s: string)
    ensures |s| == n && s == (chunk + Zeros(begin + n))[begin..begin + n]
  {
    seq(n, i requires 0 <= i < n => if begin + i < |chunk| then chunk[begin + i] else ZERO)
  }

  /** Chunk k after a piece is written to it; a missing chunk is added first. */
  function Put(chunks: Chunks, k: nat, begin: nat, piece: string): Chunks
    requires k in chunks ==> |chunks[k]| == CHUNK
    requires begin + |piece| <= CHUNK
  {
    chunks[k := Overwritten(if k in chunks then chunks[k] else NewChunk(), begin, piece)]
  }

  // ----- pieces make a splice -----

  lemma NothingSpliced(chunks: Chunks, offset: nat)
    requires Valid(chunks)
    ensures Spliced(chunks, chunks, offset, "")
  {}

  lemma PutByte(chunks: Chunks, k: nat, begin: nat, piece: string, p: nat)
    requires Valid(chunks) && begin + |piece| <= CHUNK
    ensures ByteAt(Put(chunks, k, begin, piece), p) ==
      if k * CHUNK + begin <= p < k * CHUNK + begin + |piece| then piece[p - k * CHUNK - begin] else ByteAt(chunks, p)
  {
    hide Put;
    var j, i := p / CHUNK, p % CHUNK;
    assert p == j * CHUNK + i;
    PutAt(chunks, k, begin, piece, j, i);
  }

  lemma PutAt(chunks: Chunks, k: nat, begin: nat, piece: string, j: nat, i: nat)
    requires Valid(chunks) && begin + |piece| <= CHUNK && i < CHUNK
    ensures var after := Put(chunks, k, begin, piece);
      && (j in after <==> j in chunks || j == k)
      && (j in after ==> |after[j]| == CHUNK)
      && (j in after ==> after[j][i] == if j == k && begin <= i < begin + |piece| then piece[i - begin]
                                        else if j in chunks then chunks[j][i] else ZERO)
  {
    hide Overwritten, NewChunk;
    if j == k && j !in chunks {
      NewChunkZero(i);
    }
  }

  lemma NewChunkZero(i: nat)
    requires i < CHUNK
    ensures NewChunk()[i] == ZERO
  {}

  lemma NextPiece(before: Chunks, mid: Chunks, offset: nat, data: string, k: nat, begin: nat, piece: string)
    requires Spliced(before, mid, offset, data)
    requires begin + |piece| <= CHUNK && 0 < |piece| && k * CHUNK + begin == offset + |data|
    ensures Spliced(before, Put(mid, k, begin, piece), offset, data + piece)
  {
    hide ByteAt;
    var after := Put(mid, k, begin, piece);
    forall p: nat ensures ByteAt(after, p) ==
      if offset <= p < offset + |data + piece| then (data + piece)[p - offset] else ByteAt(before, p)
    {
      PutByte(mid, k, begin, piece, p);
    }
    forall j: nat ensures j in after <==> j in before || Touches(j, offset, |data + piece|) {
      TouchesNext(j, offset, |data|, k, begin, |piece|);
    }
  }

  lemma TouchesNext(j: nat, offset: nat, n: nat, k: nat, begin: nat, m: nat)
    requires begin + m <= CHUNK && 0 < m && k * CHUNK + begin == offset + n
    ensures Touches(j, offset, n + m) <==> Touches(j, offset, n) || j == k
  {}

  // ----- what read returns -----

  /** The first chunk that is missing, counting from k. */
  ghost function FirstMissing(chunks: Chunks, k: nat): (m: nat)
    ensures k <= m && m !in chunks
    ensures forall i: nat :: k <= i < m ==> i in chunks
    decreases |Above(chunks, k)|
  {
    if k !in chunks then k
    else
      AboveShrinks(chunks, k);
      FirstMissing(chunks, k + 1)
  }

  ghost function Above(chunks: Chunks, k: nat): set<nat> {
    set i | i in chunks && i >= k
  }

  lemma AboveShrinks(chunks: Chunks, k: nat)
    requires k in chunks
    ensures |Above(chunks, k + 1)| < |Above(chunks, k)|
  {
    assert Above(chunks, k) == Above(chunks, k + 1) + {k};
  }

  /** How much read aims to return: the remainder is computed from the whole size, so from the third piece on
      it is too large, and from size 2 * CHUNK it never gets smaller. */
  ghost function Length(chunks: Chunks, offset: nat, size: nat): nat {
    var index, begin := offset / CHUNK, offset % CHUNK;
    var missing := FirstMissing(chunks, index);
    if missing == index then 0
    else
      var available := missing * CHUNK - offset;
      if begin + size < 2 * CHUNK then Least(size, available)
      else if size < 2 * CHUNK then Least(size + CHUNK - begin, available)
      else available
  }

  function Least(a: nat, b: nat): nat { if a < b then a else b }

  /** All chunks of the range exist. */
  ghost predicate Covered(chunks: Chunks, offset: nat, n: nat) {
    forall k: nat :: Touches(k, offset, n) ==> k in chunks
  }

  lemma CoveredReaches(chunks: Chunks, offset: nat, size: nat)
    requires size > 0 && Covered(chunks, offset, size)
    ensures FirstMissing(chunks, offset / CHUNK) * CHUNK >= offset + size
  {
    var m := FirstMissing(chunks, offset / CHUNK);
    assert m !in chunks;
    assert !Touches(m, offset, size);
  }

  /** On existing chunks read returns the flat bytes exactly when the range ends before the end of its second
      chunk, or ends at a chunk boundary after which the file has no chunk. */
  lemma ReadExact(chunks: Chunks, offset: nat, size: nat)
    requires size > 0 && Covered(chunks, offset, size)
    ensures Slice(chunks, offset, Length(chunks, offset, size)) == Slice(chunks, offset, size) <==>
      offset % CHUNK + size < 2 * CHUNK || ((offset + size) % CHUNK == 0 && (offset + size) / CHUNK !in chunks)
  {
    hide Slice, Length, Covered;
    LengthExact(chunks, offset, size);
  }

  lemma LengthExact(chunks: Chunks, offset: nat, size: nat)
    requires size > 0 && Covered(chunks, offset, size)
    ensures Length(chunks, offset, size) == size <==>
      offset % CHUNK + size < 2 * CHUNK || ((offset + size) % CHUNK == 0 && (offset + size) / CHUNK !in chunks)
  {
    CoveredReaches(chunks, offset, size);
    assert Touches(offset / CHUNK, offset, size);
    hide Covered;
    var m := FirstMissing(chunks, offset / CHUNK);
    if (offset + size) % CHUNK == 0 && (offset + size) / CHUNK !in chunks {
      assert m <= (offset + size) / CHUNK;
    }
  }

  /** The boundary case: two whole chunks followed by a third cannot be read in one call. */
  lemma TwoChunksFail(chunks: Chunks, k: nat)
    requires k in chunks && k + 1 in chunks && k + 2 in chunks
    ensures Slice(chunks, k * CHUNK, Length(chunks, k * CHUNK, 2 * CHUNK)) != Slice(chunks, k * CHUNK, 2 * CHUNK)
  {
    assert (k * CHUNK) % CHUNK == 0 && (k * CHUNK + 2 * CHUNK) / CHUNK == k + 2;
    ReadExact(chunks, k * CHUNK, 2 * CHUNK);
  }

  /** Reading back what was written returns it under the same condition. */
  lemma WriteThenRead(before: Chunks, after: Chunks, offset: nat, data: string)
    requires Spliced(before, after, offset, data) && data != ""
    ensures Slice(after, offset, Length(after, offset, |data|)) == data <==>
      offset % CHUNK + |data| < 2 * CHUNK || ((offset + |data|) % CHUNK == 0 && (offset + |data|) / CHUNK !in after)
  {
    hide ByteAt, Length;
    assert Covered(after, offset, |data|);
    ReadExact(after, offset, |data|);
    assert Slice(after, offset, |data|) == data;
  }

  /** A write leaves every range it does not meet as it was. */
  lemma WriteLeaves(before: Chunks, after: Chunks, offset: nat, data: string, a: nat, n: nat)
    requires Spliced(before, after, offset, data) && (a + n <= offset || offset + |data| <= a)
    ensures Slice(after, a, n) == Slice(before, a, n)
  {
    hide ByteAt;
    forall i | 0 <= i < n ensures Slice(after, a, n)[i] == Slice(before, a, n)[i] {
      assert ByteAt(after, a + i) == ByteAt(before, a + i);
    }
  }

  /** What the chunk server reads out of one chunk is that stretch of the flat file. */
  lemma SliceWhole(chunks: Chunks, k: nat, begin: nat, n: nat)
    requires k in chunks && |chunks[k]| == CHUNK && begin + n <= CHUNK
    ensures ReadChunk(chunks[k], begin, n) == Slice(chunks, k * CHUNK + begin, n)
  {
    hide ByteAt;
    var read, slice := ReadChunk(chunks[k], begin, n), Slice(chunks, k * CHUNK + begin, n);
    forall i: nat | i < n ensures read[i] == slice[i] {
      ByteIn(chunks, k, begin + i);
    }
  }

  lemma ByteIn(chunks: Chunks, k: nat, j: nat)
    requires k in chunks && |chunks[k]| == CHUNK && j < CHUNK
    ensures ByteAt(chunks, k * CHUNK + j) == chunks[k][j]
  {
    assert (k * CHUNK + j) / CHUNK == k && (k * CHUNK + j) % CHUNK == j;
  }

  lemma SliceAppend(chunks: Chunks, offset: nat, a: nat, b: nat)
    ensures Slice(chunks, offset, a) + Slice(chunks, offset + a, b) == Slice(chunks, offset, a + b)
  {}

  // ----- the client -----

  datatype Written = Success | NoFile | ClientCrash | ServerFatal
  datatype Got = Got(data: string) | Crash

  class Client {
    var files: map<string, Chunks>

    ghost predicate Ok()
      reads this
    {
      forall f :: f in files ==> Valid(files[f])
    }

    constructor ()
      ensures Ok() && files == map[]
    {
      files := map[];
    }

    /** A new file has one chunk of zeros. */
    method Create(name: string) returns (ok: bool)
      requires Ok()
      modifies this
      ensures Ok() && ok == (name !in old(files))
      ensures files == if ok then old(files)[name := map[0 := NewChunk()]] else old(files)
    {
      ok := name !in files;
      if ok {
        files := files[name := map[0 := NewChunk()]];
      }
    }

    /** One piece: look the chunk up, add it if it is missing, overwrite. */
    method WritePiece(name: string, k: nat, begin: nat, piece: string)
      requires Ok() && name in files && 0 < |piece| && begin + |piece| <= CHUNK
      modifies this
      ensures Ok() && files == old(files)[name := Put(old(files)[name], k, begin, piece)]
    {
      var chunks: Chunks := files[name];
      if k !in chunks {
        chunks := chunks[k := NewChunk()];
      }
      assert LastByte(begin, |piece|) < CHUNK;
      chunks := chunks[k := Overwritten(chunks[k], begin, piece)];
      assert chunks == Put(files[name], k, begin, piece);
      files := files[name := chunks];
    }

    method Write(name: string, offset: nat, data: string) returns (r: Written)
      requires Ok()
      modifies this
      ensures Ok() && files.Keys == old(files).Keys && forall f :: f in files && f != name ==> files[f] == old(files)[f]
      ensures r.NoFile? <==> name !in old(files)
      ensures r.ClientCrash? <==>
        name in old(files) && offset % CHUNK + |data| < CHUNK && offset / CHUNK !in old(files)[name]
      ensures r.ServerFatal? <==> name in old(files) && data == "" && offset % CHUNK == 0 && offset / CHUNK in old(files)[name]
      ensures r.Success? ==> Spliced(old(files)[name], files[name], offset, data)
      ensures !r.Success? ==> files == old(files)
    {
      var index, begin := offset / CHUNK, offset % CHUNK;
      if name !in files {
        return NoFile;
      }
      if begin + |data| >= CHUNK {
        WriteAcross(name, offset, data);
        return Success;
      }
      if index !in files[name] {
        return ClientCrash;
      }
      if LastByte(begin, |data|) >= CHUNK {
        return ServerFatal;
      }
      NothingSpliced(files[name], offset);
      if data != "" {
        NextPiece(files[name], files[name], offset, "", index, begin, data);
        assert "" + data == data;
        WritePiece(name, index, begin, data);
      }
      return Success;
    }

    /** The loop over the chunks of a write that reaches the end of its first chunk. */
    method WriteAcross(name: string, offset: nat, data: string)
      requires Ok() && name in files && offset % CHUNK + |data| >= CHUNK
      modifies this
      ensures Ok() && files.Keys == old(files).Keys && forall f :: f in files && f != name ==> files[f] == old(files)[f]
      ensures name in files && Spliced(old(files)[name], files[name], offset, data)
    {
      hide Spliced, Put;
      ghost var before := files[name];
      var index: nat, begin: nat := offset / CHUNK, offset % CHUNK;
      var left: string, last: nat := data, 0;
      NothingSpliced(before, offset);
      assert data[..0] == "";
      while begin + |left| >= CHUNK
        invariant Ok() && files.Keys == old(files).Keys && forall f :: f in files && f != name ==> files[f] == old(files)[f]
        invariant last <= |data| && left == data[last..] && begin < CHUNK && index * CHUNK + begin == offset + last
        invariant Spliced(before, files[name], offset, data[..last])
        decreases |left|
      {
        var newsize := CHUNK - begin;
        var piece := data[last..last + newsize];
        left := data[last + newsize..];
        NextPiece(before, files[name], offset, data[..last], index, begin, piece);
        assert data[..last] + piece == data[..last + newsize];
        WritePiece(name, index, begin, piece);
        begin, index, last := (begin + newsize) % CHUNK, index + 1, last + newsize;
      }
      if |left| > 0 {
        NextPiece(before, files[name], offset, data[..last], index, begin, left);
        assert data[..last] + left == data;
        WritePiece(name, index, begin, left);
      } else {
        assert data[..last] == data;
      }
    }

    method Read(name: string, offset: nat, size: nat) returns (r: Got)
      requires Ok()
      ensures size == 0 || name !in files ==> r == Got("")
      ensures r.Crash? <==>
        size > 0 && name in files && offset % CHUNK + size < CHUNK && offset / CHUNK !in files[name]
      ensures size > 0 && name in files && r.Got? ==>
        r.data == Slice(files[name], offset, Length(files[name], offset, size))
    {
      var index, begin := offset / CHUNK, offset % CHUNK;
      if size == 0 || name !in files {
        return Got("");
      }
      if begin + size >= CHUNK {
        var data := ReadAcross(files[name], offset, size);
        return Got(data);
      }
      if index !in files[name] {
        return Crash;
      }
      SliceWhole(files[name], index, begin, size);
      return Got(ReadChunk(files[name][index], begin, size));
    }

    static method ReadAcross(chunks: Chunks, offset: nat, size: nat) returns (data: string)
      requires Valid(chunks) && size > 0 && offset % CHUNK + size >= CHUNK
      ensures data == Slice(chunks, offset, Length(chunks, offset, size))
    {
      hide Slice, Length, Progress;
      var index: nat, begin: nat := offset / CHUNK, offset % CHUNK;
      data := "";
      var newsize: nat, lastsize: nat := size, size;
      ghost var missing := false;
      NoSlice(chunks, offset);
      Starts(chunks, offset, size);
      while begin + lastsize >= CHUNK
        invariant Progress(chunks, offset, size, index, begin, lastsize) && index * CHUNK + begin >= offset
        invariant data == Slice(chunks, offset, index * CHUNK + begin - offset)
        decreases |Above(chunks, index)|
      {
        Advances(chunks, offset, size, index, begin, lastsize);
        newsize := CHUNK - begin;
        lastsize := size - newsize;
        if index !in chunks {
          missing := true;
          break;
        }
        AboveShrinks(chunks, index);
        SliceWhole(chunks, index, begin, newsize);
        SliceAppend(chunks, offset, index * CHUNK + begin - offset, newsize);
        data := data + ReadChunk(chunks[index], begin, newsize);
        begin, index := (begin + newsize) % CHUNK, index + 1;
      }
      if !missing {
        Ends(chunks, offset, size, index, begin, lastsize);
      }
      if lastsize > 0 {
        if index !in chunks {
          return;
        }
        SliceWhole(chunks, index, begin, lastsize);
        SliceAppend(chunks, offset, index * CHUNK + begin - offset, lastsize);
        data := data + ReadChunk(chunks[index], begin, lastsize);
      }
    }
  }

  lemma NoSlice(chunks: Chunks, offset: nat)
    ensures Slice(chunks, offset, 0) == ""
  {}

  /** Where the read loop stands: before its first piece, after it, or after two or more. */
  ghost predicate Progress(chunks: Chunks, offset: nat, size: nat, index: nat, begin: nat, lastsize: nat) {
    && index >= offset / CHUNK
    && index * CHUNK + begin >= offset
    && FirstMissing(chunks, index) == FirstMissing(chunks, offset / CHUNK)
    && (if index == offset / CHUNK then begin == offset % CHUNK && lastsize == size
        else begin == 0 &&
             if index == offset / CHUNK + 1 then lastsize + CHUNK - offset % CHUNK == size
             else size + offset % CHUNK >= 2 * CHUNK && lastsize + CHUNK == size)
    && (index > offset / CHUNK + 2 ==> size >= 2 * CHUNK)
  }

  lemma Starts(chunks: Chunks, offset: nat, size: nat)
    ensures Progress(chunks, offset, size, offset / CHUNK, offset % CHUNK, size)
  {}

  /** One turn of the loop: either the chunk is missing and everything before it is returned, or the loop goes on. */
  lemma Advances(chunks: Chunks, offset: nat, size: nat, index: nat, begin: nat, lastsize: nat)
    requires size > 0 && offset % CHUNK + size >= CHUNK
    requires Progress(chunks, offset, size, index, begin, lastsize) && begin + lastsize >= CHUNK
    ensures begin < CHUNK && size >= CHUNK - begin && index * CHUNK + begin >= offset
    ensures index !in chunks ==> Length(chunks, offset, size) == index * CHUNK + begin - offset
    ensures index in chunks ==> Progress(chunks, offset, size, index + 1, 0, size - (CHUNK - begin))
  {}

  /** The loop is over: the rest, if any, is in the next chunk, if there is one. */
  lemma Ends(chunks: Chunks, offset: nat, size: nat, index: nat, begin: nat, lastsize: nat)
    requires size > 0 && offset % CHUNK + size >= CHUNK
    requires Progress(chunks, offset, size, index, begin, lastsize) && begin + lastsize < CHUNK
    ensures index * CHUNK + begin >= offset
    ensures Length(chunks, offset, size) ==
      index * CHUNK + begin - offset + if index in chunks then lastsize else 0
  {}
}
