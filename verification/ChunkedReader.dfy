/**
  The chunked request-body decoder of the storage proxy: it is asked for any number of
  bytes at a time, pulls whole chunks off a shared stream until it has them, and must leave
  the stream exactly after the message, because the next request starts there.
*/
module ChunkedReader {
  import opened Options
  import opened PythonInts

  const LF: byte := 10
  const CRLF: Bytes := [13, 10]
  const SEMICOLON: byte := 59

  /** split(b";")[0] */
  function BeforeSemicolon(s: Bytes): Bytes {
    if s == [] || s[0] == SEMICOLON then [] else [s[0]] + BeforeSemicolon(s[1..])
  }

  /** The length of the line readline() takes: through the next LF, or to the end. */
  function LineLength(src: Bytes): (n: nat)
    ensures n <= |src| && (src != [] ==> n > 0)
  {
    if src == [] then 0 else if src[0] == LF then 1 else 1 + LineLength(src[1..])
  }

  function ReadSize(src: Bytes, n: int): (k: nat)
    ensures k <= |src|
  {
    if n < 0 || n > |src| then |src| else n
  }

  class Stream {
    const data: Bytes
    var pos: nat

    constructor (data: Bytes)
      ensures this.data == data && pos == 0
    {
      this.data := data;
      pos := 0;
    }

    ghost predicate Valid()
      reads this
    {
      pos <= |data|
    }

    ghost function Rest(): Bytes
      reads this
      requires Valid()
    {
      data[pos..]
    }

    method Read(n: int) returns (out: Bytes)
      requires Valid()
      modifies this
      ensures Valid() && out == old(Rest())[..ReadSize(old(Rest()), n)]
      ensures Rest() == old(Rest())[ReadSize(old(Rest()), n)..]
    {
      var k := ReadSize(data[pos..], n);
      out := data[pos..pos + k];
      pos := pos + k;
    }

    method ReadLine() returns (line: Bytes)
      requires Valid()
      modifies this
      ensures Valid() && line == old(Rest())[..LineLength(old(Rest()))]
      ensures Rest() == old(Rest())[LineLength(old(Rest()))..]
    {
      var k := LineLength(data[pos..]);
      line := data[pos..pos + k];
      pos := pos + k;
    }
  }

  // ---------------------------------------------------------------- one read

  /** What the reader holds: the stream ahead of it, decoded bytes not handed out, and whether the end was seen. */
  datatype Reader = Reader(src: Bytes, buf: Bytes, done: bool)

  function AfterLine(src: Bytes): Bytes {
    src[LineLength(src)..]
  }

  function LineOf(src: Bytes): Bytes {
    Strip(src[..LineLength(src)])
  }

  function DrainTrailers(src: Bytes): Bytes
    decreases |src|
  {
    if LineOf(src) == [] then AfterLine(src) else DrainTrailers(AfterLine(src))
  }

  /** The chunk size announced by a line; None is the ValueError that fails the read. */
  function ChunkSize(line: Bytes): Option<int> {
    var text := BeforeSemicolon(line);
    ParseInt16(if text == [] then [48] else text)
  }

  /** At end of stream readline() is empty, which reads as the last chunk. */
  lemma EndOfStreamIsZero(src: Bytes)
    ensures src == [] ==> ChunkSize(LineOf(src)) == Some(0)
  {
    if src == [] {
      assert LineOf(src) == [] && Strip([48]) == [48] && HexDigits([48]) == Some(0);
    }
  }

  predicate Wants(r: Reader, size: int) {
    !r.done && (size < 0 || |r.buf| < size)
  }

  /** The loop of read(size): pull chunks until there are enough bytes or the message ends. */
  function Pump(r: Reader, size: int): Option<Reader>
    decreases |r.src|
  {
    if !Wants(r, size) then Some(r) else
      var n := ChunkSize(LineOf(r.src));
      var rest := AfterLine(r.src);
      if n.None? then None
      else if n.value == 0 then Some(Reader(DrainTrailers(rest), r.buf, true))
      else
        EndOfStreamIsZero(r.src);
        var k := ReadSize(rest, n.value);
        Pump(Reader(AfterLine(rest[k..]), r.buf + rest[..k], false), size)
  }

  /** What read(size) hands out of the bytes it has, and what it keeps. */
  function TakeSize(buf: Bytes, size: int): nat {
    if size < 0 || size > |buf| then |buf| else size
  }

  class Chunked {
    const stream: Stream
    var buf: Bytes
    var done: bool

    constructor (stream: Stream)
      ensures this.stream == stream && buf == [] && !done
    {
      this.stream := stream;
      buf, done := [], false;
    }

    ghost function State(): Reader
      reads this, stream
      requires stream.Valid()
    {
      Reader(stream.Rest(), buf, done)
    }

    /** read(size); None is the ValueError of a malformed size line. */
    method Read(size: int) returns (out: Option<Bytes>)
      requires stream.Valid()
      modifies this, stream
      ensures stream.Valid()
      ensures var r := Pump(old(State()), size);
              if r.None? then out.None?
              else var k := TakeSize(r.value.buf, size);
                   out == Some(r.value.buf[..k]) && State() == r.value.(buf := r.value.buf[k..])
    {
      while !done && (size < 0 || |buf| < size)
        invariant stream.Valid() && Pump(State(), size) == Pump(old(State()), size)
        decreases |stream.Rest()|
      {
        ghost var at := State();
        var line := stream.ReadLine();
        var chunkSize := ChunkSize(Strip(line));
        if chunkSize.None? { return None; }
        if chunkSize.value == 0 {
          DrainToEmptyLine();
          done := true;
          break;
        }
        EndOfStreamIsZero(at.src);
        var data := stream.Read(chunkSize.value);
        buf := buf + data;
        var crlf := stream.ReadLine();
      }
      var k := TakeSize(buf, size);
      out := Some(buf[..k]);
      buf := buf[k..];
    }

    method DrainToEmptyLine()
      requires stream.Valid()
      modifies stream
      ensures stream.Valid() && stream.Rest() == DrainTrailers(old(stream.Rest()))
    {
      ghost var src := stream.Rest();
      var line := stream.ReadLine();
      while Strip(line) != []
        invariant stream.Valid()
        invariant Strip(line) == LineOf(src) && stream.Rest() == AfterLine(src)
        invariant DrainTrailers(src) == DrainTrailers(old(stream.Rest()))
        decreases |src|
      {
        src := stream.Rest();
        line := stream.ReadLine();
      }
    }
  }

  // ------------------------------------- well-formed messages (RFC 7230, section 4.1)

  datatype Chunk = Chunk(size: Bytes, ext: Bytes, data: Bytes)

  /** Chunks, the last-chunk line (its zeros and extension), and the trailer lines. */
  datatype Message = Message(chunks: seq<Chunk>, last: Bytes, lastExt: Bytes, trailers: seq<Bytes>)

  predicate Extension(ext: Bytes) {
    LF !in ext && (ext == [] || ext[0] == SEMICOLON)
  }

  predicate WellFormed(m: Message) {
    && (forall c <- m.chunks :: Spells(c.size, |c.data|) && Extension(c.ext) && c.data != [])
    && Spells(m.last, 0) && Extension(m.lastExt)
    && forall t <- m.trailers :: LF !in t && Strip(t) != []
  }

  function TrailerLines(trailers: seq<Bytes>): Bytes {
    if trailers == [] then CRLF else trailers[0] + CRLF + TrailerLines(trailers[1..])
  }

  function Encode(m: Message): Bytes
    decreases |m.chunks|
  {
    if m.chunks == [] then m.last + m.lastExt + CRLF + TrailerLines(m.trailers)
    else
      var c := m.chunks[0];
      c.size + c.ext + CRLF + c.data + CRLF + Encode(m.(chunks := m.chunks[1..]))
  }

  function Body(chunks: seq<Chunk>): Bytes {
    if chunks == [] then [] else chunks[0].data + Body(chunks[1..])
  }

  lemma {:induction false} LineLengthOf(line: Bytes, rest: Bytes)
    requires LF !in line
    ensures LineLength(line + [LF] + rest) == |line| + 1
    ensures AfterLine(line + [LF] + rest) == rest
    decreases |line|
  {
    var src := line + [LF] + rest;
    if line != [] {
      assert src[1..] == line[1..] + [LF] + rest;
      LineLengthOf(line[1..], rest);
    }
  }

  /** Stripping the right end stops at the first byte that is not white. */
  lemma {:induction false} RStripStops(head: Bytes, tail: Bytes) returns (k: nat)
    requires head != [] && !White(head[|head| - 1])
    ensures k <= |tail| && RStrip(head + tail) == head + tail[..k] && (k == 0 || !White(tail[k - 1]))
    decreases |tail|
  {
    var s := head + tail;
    if tail == [] {
      assert s == head;
      k := 0;
    } else if White(tail[|tail| - 1]) {
      var front := tail[..|tail| - 1];
      assert s[..|s| - 1] == head + front;
      k := RStripStops(head, front);
      assert front[..k] == tail[..k];
    } else {
      k := |tail|;
      assert s == head + tail[..k];
    }
  }

  lemma {:induction false} BeforeSemicolonStops(size: Bytes, ext: Bytes)
    requires SEMICOLON !in size && (ext == [] || ext[0] == SEMICOLON)
    ensures BeforeSemicolon(size + ext) == size
    decreases |size|
  {
    if size == [] {
      assert size + ext == ext;
    } else {
      assert (size + ext)[1..] == size[1..] + ext;
      BeforeSemicolonStops(size[1..], ext);
    }
  }

  /** Bytes that neither stripping nor the search for a line end or a semicolon touches. */
  predicate Solid(text: Bytes) {
    text != [] && forall b <- text :: !White(b) && b != SEMICOLON && b != LF
  }

  lemma SolidLine(text: Bytes, ext: Bytes, rest: Bytes)
    requires Solid(text) && Extension(ext)
    ensures var src := text + ext + CRLF + rest;
            src[..LineLength(src)] == text + (ext + CRLF) && AfterLine(src) == rest
  {
    var src, line := text + ext + CRLF + rest, text + ext + [13];
    assert src == line + [LF] + rest;
    LineLengthOf(line, rest);
    assert src[..|line| + 1] == text + (ext + CRLF);
  }

  lemma SolidText(text: Bytes, ext: Bytes)
    requires Solid(text) && Extension(ext)
    ensures BeforeSemicolon(Strip(text + (ext + CRLF))) == text
  {
    var tail := ext + CRLF;
    assert text[0] in text && text[|text| - 1] in text;
    assert LStrip(text + tail) == text + tail;
    var k := RStripStops(text, tail);
    assert tail[..k] == [] || tail[..k][0] == SEMICOLON by {
      assert if ext == [] then tail == CRLF && k == 0 else tail[0] == SEMICOLON;
    }
    BeforeSemicolonStops(text, tail[..k]);
  }

  /**
    A size line announces the number its digits spell, in either letter case, with any leading
    zeros and whatever extension follows; the stream moves just past it.
  */
  lemma SizeLine(size: Bytes, n: nat, ext: Bytes, rest: Bytes)
    requires Spells(size, n) && Extension(ext)
    ensures var src := size + ext + CRLF + rest;
            ChunkSize(LineOf(src)) == Some(n) && AfterLine(src) == rest
  {
    SpelledIsPlain(size, n);
    assert Solid(size);
    SolidLine(size, ext, rest);
    SolidText(size, ext);
    SpelledIsRead(size, n);
  }

  lemma {:induction false} TrailersDrain(trailers: seq<Bytes>, suffix: Bytes)
    requires forall t <- trailers :: LF !in t && Strip(t) != []
    ensures DrainTrailers(TrailerLines(trailers) + suffix) == suffix
    decreases |trailers|
  {
    var src := TrailerLines(trailers) + suffix;
    if trailers == [] {
      assert src == [13] + [LF] + suffix;
      LineLengthOf([13], suffix);
      assert src[..2] == CRLF;
      assert CRLF[1..] == [LF] && [LF][1..] == [];
      assert LineOf(src) == [];
    } else {
      var t, rest := trailers[0], TrailerLines(trailers[1..]) + suffix;
      assert t in trailers;
      assert src == (t + [13]) + [LF] + rest;
      LineLengthOf(t + [13], rest);
      assert src[..|t| + 2] == t + CRLF;
      StripKeepsContent(t, CRLF);
      TrailersDrain(trailers[1..], suffix);
    }
  }

  lemma {:induction false} StripKeepsContent(t: Bytes, more: Bytes)
    requires Strip(t) != []
    ensures Strip(t + more) != []
    decreases |t|
  {
    if White(t[0]) {
      assert (t + more)[1..] == t[1..] + more;
      StripKeepsContent(t[1..], more);
    } else {
      var head, tail := [t[0]], t[1..] + more;
      assert t + more == head + tail;
      var k := RStripStops(head, tail);
    }
  }

  /** One turn of the loop, on a line announcing k > 0 bytes that are there. */
  lemma PumpTurn(src: Bytes, buf: Bytes, size: int, data: Bytes, after: Bytes)
    requires Wants(Reader(src, buf, false), size) && data != []
    requires ChunkSize(LineOf(src)) == Some(|data|) && AfterLine(src) == data + (CRLF + after)
    ensures Pump(Reader(src, buf, false), size) == Pump(Reader(after, buf + data, false), size)
  {
    var rest := AfterLine(src);
    assert rest[..|data|] == data && rest[|data|..] == CRLF + after;
    assert CRLF + after == [13] + [LF] + after;
    LineLengthOf([13], after);
  }

  lemma EncodeSplits(m: Message, suffix: Bytes)
    requires m.chunks != []
    ensures var c := m.chunks[0];
            Encode(m) + suffix ==
            c.size + c.ext + CRLF + (c.data + (CRLF + (Encode(m.(chunks := m.chunks[1..])) + suffix)))
  {
  }

  /** The loop takes one chunk whole. */
  lemma ChunkStep(m: Message, suffix: Bytes, buf: Bytes, size: int)
    requires WellFormed(m) && m.chunks != []
    requires Wants(Reader(Encode(m) + suffix, buf, false), size)
    ensures var next := m.(chunks := m.chunks[1..]);
            Pump(Reader(Encode(m) + suffix, buf, false), size) ==
            Pump(Reader(Encode(next) + suffix, buf + m.chunks[0].data, false), size)
  {
    var c := m.chunks[0];
    assert c in m.chunks;
    var after := Encode(m.(chunks := m.chunks[1..])) + suffix;
    EncodeSplits(m, suffix);
    SizeLine(c.size, |c.data|, c.ext, c.data + (CRLF + after));
    PumpTurn(Encode(m) + suffix, buf, size, c.data, after);
  }

  lemma LastStep(m: Message, suffix: Bytes, buf: Bytes, size: int)
    requires WellFormed(m) && m.chunks == []
    requires Wants(Reader(Encode(m) + suffix, buf, false), size)
    ensures Pump(Reader(Encode(m) + suffix, buf, false), size) == Some(Reader(suffix, buf, true))
  {
    var rest := TrailerLines(m.trailers) + suffix;
    assert Encode(m) + suffix == m.last + m.lastExt + CRLF + rest;
    SizeLine(m.last, 0, m.lastExt, rest);
    TrailersDrain(m.trailers, suffix);
  }

  /** m is what is still to be decoded, and completes r's buffer to body. */
  ghost predicate Before(r: Reader, m: Message, body: Bytes, suffix: Bytes) {
    WellFormed(m) && r.src == Encode(m) + suffix && body == r.buf + Body(m.chunks)
  }

  /** The reader stands before `body` of a well-formed message, and `suffix` follows that message on the stream. */
  ghost predicate Standing(r: Reader, body: Bytes, suffix: Bytes) {
    if r.done then r.src == suffix && r.buf == body else exists m :: Before(r, m, body, suffix)
  }

  lemma {:induction false} PumpStands(r: Reader, m: Message, body: Bytes, suffix: Bytes, size: int)
    requires !r.done && Before(r, m, body, suffix)
    ensures var p := Pump(r, size); p.Some? && Standing(p.value, body, suffix) && !Wants(p.value, size)
    decreases |m.chunks|
  {
    if Wants(r, size) {
      assert r == Reader(Encode(m) + suffix, r.buf, false);
      if m.chunks == [] {
        LastStep(m, suffix, r.buf, size);
        assert r.buf + Body(m.chunks) == r.buf;
      } else {
        ChunkStep(m, suffix, r.buf, size);
        var next, r' := NextChunk(r, m, body, suffix);
        PumpStands(r', next, body, suffix, size);
      }
    }
  }

  lemma NextChunk(r: Reader, m: Message, body: Bytes, suffix: Bytes) returns (next: Message, r': Reader)
    requires Before(r, m, body, suffix) && m.chunks != []
    ensures next == m.(chunks := m.chunks[1..])
    ensures r' == Reader(Encode(next) + suffix, r.buf + m.chunks[0].data, false)
    ensures Before(r', next, body, suffix)
  {
    next := m.(chunks := m.chunks[1..]);
    r' := Reader(Encode(next) + suffix, r.buf + m.chunks[0].data, false);
    assert forall c <- next.chunks :: c in m.chunks;
    assert r.buf + m.chunks[0].data + Body(next.chunks) == r.buf + (m.chunks[0].data + Body(next.chunks));
  }

  /** One read on values: the bytes handed out and the reader after. */
  function ReadOnce(r: Reader, size: int): Option<(Bytes, Reader)> {
    var p := Pump(r, size);
    if p.None? then None
    else var k := TakeSize(p.value.buf, size); Some((p.value.buf[..k], p.value.(buf := p.value.buf[k..])))
  }

  /**
    One read of any size: it never fails, hands out the next min(size, remaining) bytes of
    the body, and if that is short of what was asked the stream stands at the suffix.
  */
  lemma ReadTakesASlice(r: Reader, body: Bytes, suffix: Bytes, size: int)
    requires Standing(r, body, suffix)
    ensures var o := ReadOnce(r, size); var k := TakeSize(body, size);
            && o.Some? && o.value.0 == body[..k] && Standing(o.value.1, body[k..], suffix)
            && (size < 0 || k < size ==> o.value.1 == Reader(suffix, [], true))
  {
    if !r.done {
      var m :| Before(r, m, body, suffix);
      PumpStands(r, m, body, suffix, size);
    }
    var p := Pump(r, size).value;
    HandOut(p, body, suffix, TakeSize(p.buf, size));
  }

  /** Handing out k buffered bytes moves the body on by k. */
  lemma HandOut(p: Reader, body: Bytes, suffix: Bytes, k: nat)
    requires Standing(p, body, suffix) && k <= |p.buf|
    ensures |p.buf| <= |body| && (p.done ==> p.buf == body) && p.buf[..k] == body[..k]
    ensures Standing(p.(buf := p.buf[k..]), body[k..], suffix)
  {
    if !p.done {
      var m :| Before(p, m, body, suffix);
      assert body[..k] == p.buf[..k] && body[k..] == p.buf[k..] + Body(m.chunks);
      assert Before(p.(buf := p.buf[k..]), m, body[k..], suffix);
    }
  }

  function Reads(r: Reader, sizes: seq<int>): Option<(seq<Bytes>, Reader)>
    decreases |sizes|
  {
    if sizes == [] then Some(([], r)) else
      var o := ReadOnce(r, sizes[0]);
      if o.None? then None else
        var rest := Reads(o.value.1, sizes[1..]);
        if rest.None? then None else Some(([o.value.0] + rest.value.0, rest.value.1))
  }

  function Concat(parts: seq<Bytes>): Bytes {
    if parts == [] then [] else parts[0] + Concat(parts[1..])
  }

  lemma ConcatCons(part: Bytes, parts: seq<Bytes>, rest: Bytes)
    ensures Concat([part] + parts) + rest == part + (Concat(parts) + rest)
  {
    assert ([part] + parts)[1..] == parts;
  }

  /** How much of the body is left after reads of these sizes. */
  function Left(body: Bytes, sizes: seq<int>): Bytes
    decreases |sizes|
  {
    if sizes == [] then body else Left(body[TakeSize(body, sizes[0])..], sizes[1..])
  }

  /**
    Any sequence of reads: the outputs, one a read, are consecutive slices of the body, and
    the reader stands before exactly what they leave.
  */
  lemma {:induction false} ReadsTakeSlices(r: Reader, body: Bytes, suffix: Bytes, sizes: seq<int>)
    requires Standing(r, body, suffix)
    ensures var o := Reads(r, sizes);
            && o.Some? && o.value.0 == Slices(body, sizes)
            && Standing(o.value.1, Left(body, sizes), suffix)
    decreases |sizes|
  {
    if sizes != [] {
      ReadTakesASlice(r, body, suffix, sizes[0]);
      ReadsTakeSlices(ReadOnce(r, sizes[0]).value.1, body[TakeSize(body, sizes[0])..], suffix, sizes[1..]);
    }
  }

  /** The consecutive slices reads of these sizes are owed: each min(size, remaining), a negative size all of it. */
  function Slices(body: Bytes, sizes: seq<int>): (s: seq<Bytes>)
    ensures Concat(s) + Left(body, sizes) == body
    decreases |sizes|
  {
    if sizes == [] then [] else
      var k := TakeSize(body, sizes[0]);
      var rest := Slices(body[k..], sizes[1..]);
      assert Concat([body[..k]] + rest) + Left(body[k..], sizes[1..]) == body by {
        ConcatCons(body[..k], rest, Left(body[k..], sizes[1..]));
      }
      [body[..k]] + rest
  }

  /** A fresh reader over a stream holding a well-formed message stands before its whole body. */
  lemma FreshReaderStands(m: Message, suffix: Bytes)
    requires WellFormed(m)
    ensures Standing(Reader(Encode(m) + suffix, [], false), Body(m.chunks), suffix)
  {
    assert [] + Body(m.chunks) == Body(m.chunks);
    assert Before(Reader(Encode(m) + suffix, [], false), m, Body(m.chunks), suffix);
  }
}
