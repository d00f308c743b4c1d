/** What the chunked reader makes of a message whose stream ends too early, wherever it ends. */
module CutShort {
  import opened Options
  import opened PythonInts
  import opened ChunkedReader

  /** The bytes of a chunk's size line. */
  function LineLen(c: Chunk): nat {
    |c.size| + |c.ext| + 2
  }

  /** Of the body, what the first k bytes of the message carry. */
  function Arrived(chunks: seq<Chunk>, k: nat): Bytes {
    if chunks == [] || k <= LineLen(chunks[0]) then [] else
      var c, left := chunks[0], k - LineLen(chunks[0]);
      if left <= |c.data| then c.data[..left]
      else c.data + if left <= |c.data| + 2 then [] else Arrived(chunks[1..], left - |c.data| - 2)
  }

  lemma {:induction false} LastLine(src: Bytes)
    requires LF !in src
    ensures LineLength(src) == |src| && AfterLine(src) == []
    decreases |src|
  {
    if src != [] {
      assert src[0] in src && forall b <- src[1..] :: b in src;
      LastLine(src[1..]);
    }
  }

  lemma AtEnd(buf: Bytes)
    ensures Pump(Reader([], buf, false), -1) == Some(Reader([], buf, true))
  {
    EndOfStreamIsZero([]);
    assert LineOf([]) == [] && AfterLine([]) == [];
  }

  /** A size line that the stream breaks off announces something, and there is nothing to read. */
  lemma BrokenLineEnds(src: Bytes, buf: Bytes)
    requires LF !in src && ChunkSize(LineOf(src)).Some?
    ensures Pump(Reader(src, buf, false), -1) == Some(Reader([], buf, true))
  {
    LastLine(src);
    AtEnd(buf);
    assert LineOf([]) == [] && AfterLine([]) == [];
    if src != [] && ChunkSize(LineOf(src)).value != 0 { assert buf + [] == buf; }
  }

  lemma {:induction false} PrefixSpells(s: Bytes, n: nat, j: nat) returns (m: nat)
    requires Spells(s, n) && 0 < j <= |s|
    ensures Spells(s[..j], m)
    decreases |s|
  {
    if j == |s| {
      assert s[..j] == s;
      m := n;
    } else {
      m := PrefixSpells(s[..|s| - 1], n / 16, j);
      assert s[..|s| - 1][..j] == s[..j];
    }
  }

  /** Digits, and then the beginning of an extension or of the line's end. */
  lemma BrokenAfterDigits(size: Bytes, n: nat, tail: Bytes)
    requires Spells(size, n) && LF !in tail && (tail == [] || tail[0] == SEMICOLON || tail == [13])
    ensures ChunkSize(Strip(size + tail)) == Some(n)
  {
    SpelledIsPlain(size, n);
    assert Solid(size);
    assert size[0] in size && size[|size| - 1] in size;
    assert LStrip(size + tail) == size + tail;
    var k := RStripStops(size, tail);
    assert tail[..k] == [] || tail[..k][0] == SEMICOLON;
    BeforeSemicolonStops(size, tail[..k]);
    SpelledIsRead(size, n);
  }

  lemma BrokenInDigits(size: Bytes, n: nat, k: nat)
    requires Spells(size, n) && 0 < k <= |size|
    ensures ChunkSize(Strip(size[..k])).Some?
  {
    var m := PrefixSpells(size, n, k);
    assert size[..k] + [] == size[..k];
    BrokenAfterDigits(size[..k], m, []);
  }

  lemma BrokenBehindDigits(size: Bytes, n: nat, ext: Bytes, j: nat)
    requires Spells(size, n) && Extension(ext) && j <= |ext| + 1
    ensures ChunkSize(Strip(size + (ext + [13])[..j])).Some?
  {
    var tail := (ext + [13])[..j];
    assert forall b <- tail :: b in ext + [13];
    BrokenAfterDigits(size, n, tail);
  }

  /** The beginning of a size line, short of its line feed. */
  lemma Beginning(size: Bytes, ext: Bytes, k: nat)
    requires k < |size| + |ext| + 2
    ensures var src := (size + ext + CRLF)[..k];
            src == if k <= |size| then size[..k] else size + (ext + [13])[..k - |size|]
  {
    assert size + ext + CRLF == size + (ext + [13]) + [LF];
  }

  lemma BrokenSizeLine(size: Bytes, n: nat, ext: Bytes, k: nat)
    requires Spells(size, n) && Extension(ext) && k < |size| + |ext| + 2
    ensures var src := (size + ext + CRLF)[..k]; LF !in src && ChunkSize(LineOf(src)).Some?
  {
    var src := (size + ext + CRLF)[..k];
    Beginning(size, ext, k);
    NoFeed(size, n, ext, k);
    LastLine(src);
    assert src[..|src|] == src;
    if k == 0 {
      EndOfStreamIsZero(src);
    } else if k <= |size| {
      BrokenInDigits(size, n, k);
    } else {
      BrokenBehindDigits(size, n, ext, k - |size|);
    }
  }

  lemma NoFeed(size: Bytes, n: nat, ext: Bytes, k: nat)
    requires Spells(size, n) && Extension(ext) && k < |size| + |ext| + 2
    ensures LF !in (size + ext + CRLF)[..k]
  {
    SpelledIsPlain(size, n);
    var line := size + ext + [13];
    assert (size + ext + CRLF)[..k] == line[..k];
    assert forall b <- line[..k] :: b in line;
  }

  // ---------------------------------------------------------------- trailers

  lemma {:induction false} CutTrailersDrain(src: Bytes)
    requires LF !in src
    ensures DrainTrailers(src) == []
  {
    LastLine(src);
    assert LineOf([]) == [] && AfterLine([]) == [];
  }

  lemma {:induction false} TrailersCut(trailers: seq<Bytes>, k: nat)
    requires (forall t <- trailers :: LF !in t && Strip(t) != []) && k <= |TrailerLines(trailers)|
    ensures DrainTrailers(TrailerLines(trailers)[..k]) == []
    decreases |trailers|
  {
    if trailers == [] {
      if k < 2 {
        assert forall b <- CRLF[..k] :: b == 13;
        CutTrailersDrain(CRLF[..k]);
      } else {
        assert CRLF[..k] == CRLF + [];
        TrailersDrain([], []);
        assert TrailerLines([]) + [] == CRLF;
      }
    } else {
      var t, rest := trailers[0], TrailerLines(trailers[1..]);
      var src := TrailerLines(trailers)[..k];
      assert t in trailers;
      if k < |t| + 2 {
        assert src == (t + [13])[..k];
        assert forall b <- src :: b in t + [13];
        CutTrailersDrain(src);
      } else {
        var left := rest[..k - |t| - 2];
        assert TrailerLines(trailers) == t + CRLF + rest;
        assert src == (t + [13]) + [LF] + left;
        LineLengthOf(t + [13], left);
        assert src[..|t| + 2] == t + CRLF;
        StripKeepsContent(t, CRLF);
        assert forall u <- trailers[1..] :: u in trailers;
        TrailersCut(trailers[1..], k - |t| - 2);
      }
    }
  }

  // -------------------------------------------------------------------- chunks

  /** One turn of the loop on a chunk whose data, or the line end after it, is broken off. */
  lemma BrokenChunk(src: Bytes, buf: Bytes, n: nat, rest: Bytes, data: Bytes)
    requires ChunkSize(LineOf(src)) == Some(n) && n > 0 && AfterLine(src) == rest
    requires (rest == data && |data| <= n) || (rest == data + [13] && |data| == n)
    ensures Pump(Reader(src, buf, false), -1) == Some(Reader([], buf + data, true))
  {
    var k := ReadSize(rest, n);
    assert rest[..k] == data && LF !in rest[k..];
    LastLine(rest[k..]);
    AtEnd(buf + data);
  }

  lemma CutInLine(size: Bytes, n: nat, ext: Bytes, more: Bytes, k: nat, buf: Bytes)
    requires Spells(size, n) && Extension(ext) && k < |size| + |ext| + 2
    ensures Pump(Reader((size + ext + CRLF + more)[..k], buf, false), -1) == Some(Reader([], buf, true))
  {
    assert (size + ext + CRLF + more)[..k] == (size + ext + CRLF)[..k];
    BrokenSizeLine(size, n, ext, k);
    BrokenLineEnds((size + ext + CRLF)[..k], buf);
  }

  lemma CutBehindLine(head: Bytes, more: Bytes, k: nat)
    requires |head| <= k <= |head + more|
    ensures (head + more)[..k] == head + more[..k - |head|]
  {
  }

  lemma CutInChunk(c: Chunk, more: Bytes, left: nat, buf: Bytes)
    requires Spells(c.size, |c.data|) && Extension(c.ext) && c.data != []
    requires left < |c.data| + 2 && left <= |c.data + (CRLF + more)|
    ensures Pump(Reader(c.size + c.ext + CRLF + (c.data + (CRLF + more))[..left], buf, false), -1) ==
            Some(Reader([], buf + if left <= |c.data| then c.data[..left] else c.data, true))
  {
    var rest := (c.data + (CRLF + more))[..left];
    SizeLine(c.size, |c.data|, c.ext, rest);
    var data := if left <= |c.data| then c.data[..left] else c.data;
    assert rest == if left <= |c.data| then data else data + [13];
    BrokenChunk(c.size + c.ext + CRLF + rest, buf, |c.data|, rest, data);
  }

  lemma CutInLast(m: Message, k: nat, buf: Bytes)
    requires WellFormed(m) && m.chunks == [] && k <= |Encode(m)|
    ensures Pump(Reader(Encode(m)[..k], buf, false), -1) == Some(Reader([], buf, true))
  {
    var head, more := m.last + m.lastExt + CRLF, TrailerLines(m.trailers);
    if k < |head| {
      CutInLine(m.last, 0, m.lastExt, more, k, buf);
    } else {
      CutBehindLine(head, more, k);
      SizeLine(m.last, 0, m.lastExt, more[..k - |head|]);
      TrailersCut(m.trailers, k - |head|);
    }
  }

  /** A chunk, and what follows it. */
  function ChunkText(c: Chunk, more: Bytes): Bytes {
    c.size + c.ext + CRLF + (c.data + (CRLF + more))
  }

  lemma EncodeHead(m: Message)
    requires m.chunks != []
    ensures Encode(m) == ChunkText(m.chunks[0], Encode(m.(chunks := m.chunks[1..])))
  {
    EncodeSplits(m, []);
    var rest := Encode(m.(chunks := m.chunks[1..]));
    assert Encode(m) + [] == Encode(m) && rest + [] == rest;
  }

  /** What is left of a chunk that the stream breaks off. */
  function ArrivedOf(c: Chunk, k: nat): Bytes {
    if k <= LineLen(c) then [] else if k - LineLen(c) <= |c.data| then c.data[..k - LineLen(c)] else c.data
  }

  lemma CutInChunkText(c: Chunk, more: Bytes, k: nat, buf: Bytes)
    requires Spells(c.size, |c.data|) && Extension(c.ext) && c.data != []
    requires k < LineLen(c) + |c.data| + 2 && k <= |ChunkText(c, more)|
    ensures Pump(Reader(ChunkText(c, more)[..k], buf, false), -1) == Some(Reader([], buf + ArrivedOf(c, k), true))
  {
    if k < LineLen(c) {
      CutInLine(c.size, |c.data|, c.ext, c.data + (CRLF + more), k, buf);
      assert buf + [] == buf;
    } else {
      CutBehindLine(c.size + c.ext + CRLF, c.data + (CRLF + more), k);
      CutInChunk(c, more, k - LineLen(c), buf);
      assert k == LineLen(c) ==> c.data[..k - LineLen(c)] == [];
    }
  }

  lemma WholeChunk(c: Chunk, after: Bytes, buf: Bytes)
    requires Spells(c.size, |c.data|) && Extension(c.ext) && c.data != []
    ensures Pump(Reader(ChunkText(c, after), buf, false), -1) == Pump(Reader(after, buf + c.data, false), -1)
  {
    SizeLine(c.size, |c.data|, c.ext, c.data + (CRLF + after));
    PumpTurn(ChunkText(c, after), buf, -1, c.data, after);
  }

  lemma CutChunkText(c: Chunk, more: Bytes, k: nat)
    requires LineLen(c) + |c.data| + 2 <= k <= |ChunkText(c, more)|
    ensures k - LineLen(c) - |c.data| - 2 <= |more|
    ensures ChunkText(c, more)[..k] == ChunkText(c, more[..k - LineLen(c) - |c.data| - 2])
  {
    CutBehindLine(c.size + c.ext + CRLF, c.data + (CRLF + more), k);
    CutBehindLine(c.data, CRLF + more, k - LineLen(c));
    CutBehindLine(CRLF, more, k - LineLen(c) - |c.data|);
  }

  lemma CutBehindChunkText(c: Chunk, more: Bytes, k: nat, buf: Bytes)
    requires Spells(c.size, |c.data|) && Extension(c.ext) && c.data != []
    requires LineLen(c) + |c.data| + 2 <= k <= |ChunkText(c, more)|
    ensures var left := k - LineLen(c) - |c.data| - 2;
            && left <= |more|
            && Pump(Reader(ChunkText(c, more)[..k], buf, false), -1) ==
               Pump(Reader(more[..left], buf + c.data, false), -1)
  {
    CutChunkText(c, more, k);
    WholeChunk(c, more[..k - LineLen(c) - |c.data| - 2], buf);
  }

  /** The first chunk of a well-formed message, and the message behind it. */
  lemma FirstChunk(m: Message)
    requires WellFormed(m) && m.chunks != []
    ensures var c := m.chunks[0]; Spells(c.size, |c.data|) && Extension(c.ext) && c.data != []
    ensures WellFormed(m.(chunks := m.chunks[1..]))
  {
    assert m.chunks[0] in m.chunks && forall d <- m.chunks[1..] :: d in m.chunks;
  }

  lemma ArrivedCons(chunks: seq<Chunk>, k: nat, buf: Bytes)
    requires chunks != [] && k >= LineLen(chunks[0]) + |chunks[0].data| + 2
    ensures buf + chunks[0].data + Arrived(chunks[1..], k - LineLen(chunks[0]) - |chunks[0].data| - 2)
            == buf + Arrived(chunks, k)
  {
  }

  /**
    Wherever the stream ends inside a well-formed message, reading to the end does not fail and
    hands out exactly the bytes of the body that arrived.
  */
  lemma {:induction false} WhatArrivedIsRead(m: Message, k: nat, buf: Bytes)
    requires WellFormed(m) && k <= |Encode(m)|
    ensures Pump(Reader(Encode(m)[..k], buf, false), -1) == Some(Reader([], buf + Arrived(m.chunks, k), true))
    decreases |m.chunks|
  {
    if m.chunks == [] {
      CutInLast(m, k, buf);
      assert buf + [] == buf;
    } else {
      var c, next := m.chunks[0], m.(chunks := m.chunks[1..]);
      FirstChunk(m);
      EncodeHead(m);
      if k < LineLen(c) + |c.data| + 2 {
        CutInChunkText(c, Encode(next), k, buf);
        assert Arrived(m.chunks, k) == ArrivedOf(c, k);
      } else {
        CutBehindChunkText(c, Encode(next), k, buf);
        WhatArrivedIsRead(next, k - LineLen(c) - |c.data| - 2, buf + c.data);
        ArrivedCons(m.chunks, k, buf);
      }
    }
  }
}
