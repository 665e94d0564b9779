/** Chunked bodies by their grammar: whole chunks, and then one of the ways a body can end. */
module ChunkGrammar {
  import opened Bytes
  import opened ChunkedDecoder
  import opened SizeLines

  ghost predicate NoCrlf(s: bytes) {
    forall i: nat :: !CrlfAt(s, i)
  }

  /** A size line, without its CRLF, that announces `n`. */
  ghost predicate Sized(line: bytes, n: nat) {
    NoCrlf(line) && Utf8(line) && n < USIZE_LIMIT && Announces(line, n)
  }

  datatype Chunk = Chunk(line: bytes, data: bytes)

  ghost predicate IsChunk(c: Chunk) {
    c.data != [] && Sized(c.line, |c.data|)
  }

  function Wire(chunks: seq<Chunk>): bytes {
    if chunks == [] then []
    else chunks[0].line + CRLF + (chunks[0].data + (CRLF + Wire(chunks[1..])))
  }

  function Payload(chunks: seq<Chunk>): bytes {
    if chunks == [] then [] else chunks[0].data + Payload(chunks[1..])
  }

  /** What can stand behind the whole chunks: no line at all, a last chunk, a line that
      announces no size, a chunk cut short in its data or in the CRLF behind them, or a chunk
      with something else behind its data. */
  datatype Tail =
    | NoLine(rest: bytes)
    | LastChunk(line: bytes, rest: bytes)
    | BadLine(line: bytes, rest: bytes)
    | CutData(line: bytes, size: nat, data: bytes)
    | CutCrlf(line: bytes, data: bytes, rest: bytes)
    | OtherBytes(line: bytes, data: bytes, rest: bytes)

  ghost predicate IsTail(t: Tail) {
    match t
    case NoLine(rest) => NoCrlf(rest)
    case LastChunk(line, _) => Sized(line, 0)
    case BadLine(line, _) => NoCrlf(line) && forall n: nat :: !Sized(line, n)
    case CutData(line, size, data) => Sized(line, size) && |data| < size
    case CutCrlf(line, data, rest) => data != [] && Sized(line, |data|) && |rest| < 2
    case OtherBytes(line, data, rest) => data != [] && Sized(line, |data|) && |rest| >= 2 && rest[..2] != CRLF
  }

  function TailBytes(t: Tail): bytes {
    match t
    case NoLine(rest) => rest
    case LastChunk(line, rest) => line + CRLF + rest
    case BadLine(line, rest) => line + CRLF + rest
    case CutData(line, _, data) => line + CRLF + data
    case CutCrlf(line, data, rest) => line + CRLF + (data + rest)
    case OtherBytes(line, data, rest) => line + CRLF + (data + rest)
  }

  /** What the reader still gets from the tail, and how the body ends. */
  function Meaning(t: Tail): Decoded {
    match t
    case NoLine(_) => Decoded([], Eof)
    case LastChunk(_, _) => Decoded([], Eof)
    case BadLine(_, _) => Decoded([], BadSize)
    case CutData(_, _, data) => Decoded(data, EofMidChunk)
    case CutCrlf(_, data, _) => Decoded(data, EofAfterChunk)
    case OtherBytes(_, data, _) => Decoded(data, MissingCrlf)
  }

  // ---------------------------------------------------------------- lines

  lemma SizedIsLineSize(line: bytes, n: nat)
    ensures Sized(line, n) <==> NoCrlf(line) && LineSize(line) == Some(n)
  {
    LineSizeExactly(line, n);
    hide Utf8, LineSize, Announces, NoCrlf;
  }

  lemma FirstLine(line: bytes, rest: bytes)
    requires NoCrlf(line)
    ensures FindCrlf(line + CRLF + rest) == Some(|line|)
  {
    var s := line + CRLF + rest;
    assert CrlfAt(s, |line|);
    forall i: nat | i < |line|
      ensures !CrlfAt(s, i)
    {
      assert !CrlfAt(line, i);
    }
    hide FindCrlf;
  }

  lemma LineCuts(line: bytes, rest: bytes)
    ensures var s := line + CRLF + rest; s[..|line|] == line && s[|line| + 2..] == rest
  {
  }

  /** The first line decides what comes next. */
  lemma LineDecodes(line: bytes, rest: bytes)
    requires NoCrlf(line)
    ensures var size := LineSize(line);
            Decode(SizeLine, line + CRLF + rest) ==
            if size.None? then Decoded([], BadSize)
            else if size.value == 0 then Decoded([], Eof)
            else Decode(Data(size.value), rest)
  {
    FirstLine(line, rest);
    LineCuts(line, rest);
    hide LineSize, FindCrlf, NoCrlf;
  }

  lemma SizedDecodes(line: bytes, n: nat, rest: bytes)
    requires Sized(line, n)
    ensures Decode(SizeLine, line + CRLF + rest) == if n == 0 then Decoded([], Eof) else Decode(Data(n), rest)
  {
    hide Decode, LineSize, NoCrlf, Announces, Utf8;
    SizedIsLineSize(line, n);
    LineDecodes(line, rest);
  }

  lemma DataDecodes(data: bytes, rest: bytes)
    requires data != []
    ensures Decode(Data(|data|), data + rest) == Prepend(data, Decode(DataCrlf, rest))
  {
    hide Decode, Prepend;
    DataTaken(|data|, data, rest);
    ChunkEnds(rest);
  }

  lemma ChunkDecodes(c: Chunk, t: bytes)
    requires IsChunk(c)
    ensures Decode(SizeLine, c.line + CRLF + (c.data + (CRLF + t))) == Prepend(c.data, Decode(SizeLine, t))
  {
    hide Decode, Prepend, Sized;
    SizedDecodes(c.line, |c.data|, c.data + (CRLF + t));
    DataDecodes(c.data, CRLF + t);
    CrlfDecides(CRLF, t);
    assert CRLF[2..] + t == t && CRLF[..2] == CRLF;
  }

  // ---------------------------------------------------------------- bodies

  lemma DataIsCut(n: nat, data: bytes)
    requires |data| < n
    ensures Decode(Data(n), data) == Decoded(data, EofMidChunk)
  {
  }

  lemma TailDecodes(t: Tail)
    requires IsTail(t)
    ensures Decode(SizeLine, TailBytes(t)) == Meaning(t)
  {
    match t
    case NoLine(rest) =>
      NoLineLeft(rest);
    case LastChunk(line, rest) =>
      SizedDecodes(line, 0, rest);
    case BadLine(line, rest) =>
      LineDecodes(line, rest);
      if LineSize(line).Some? {
        SizedIsLineSize(line, LineSize(line).value);
      }
    case CutData(line, size, data) =>
      SizedDecodes(line, size, data);
      DataIsCut(size, data);
    case CutCrlf(line, data, rest) =>
      SizedDecodes(line, |data|, data + rest);
      DataDecodes(data, rest);
      ChunkEnds(rest);
      assert data + [] == data;
      hide Decode;
    case OtherBytes(line, data, rest) =>
      SizedDecodes(line, |data|, data + rest);
      DataDecodes(data, rest);
      ChunkEnds(rest);
      assert data + [] == data;
      hide Decode;
  }

  ghost predicate AllChunks(chunks: seq<Chunk>) {
    forall c :: c in chunks ==> IsChunk(c)
  }

  lemma NoChunks(t: Tail)
    ensures AllChunks([]) && Wire([]) + TailBytes(t) == TailBytes(t)
  {
  }

  lemma NoPayload(d: Decoded)
    ensures Prepend(Payload([]), d) == d
  {
    assert [] + d.output == d.output;
  }

  lemma Reassociates(a: bytes, b: bytes, c: bytes, w: bytes, x: bytes)
    ensures (a + (b + (c + w))) + x == a + (b + (c + (w + x)))
  {
    assert (c + w) + x == c + (w + x);
    assert (b + (c + w)) + x == b + ((c + w) + x);
  }

  /** A list of chunks by its first one. */
  lemma FirstChunk(chunks: seq<Chunk>, x: bytes)
    requires chunks != [] && AllChunks(chunks)
    ensures var c := chunks[0];
            && IsChunk(c) && AllChunks(chunks[1..]) && Payload(chunks) == c.data + Payload(chunks[1..])
            && Wire(chunks) + x == c.line + CRLF + (c.data + (CRLF + (Wire(chunks[1..]) + x)))
  {
    assert chunks[0] in chunks;
    var c, w := chunks[0], Wire(chunks[1..]);
    assert Wire(chunks) == c.line + CRLF + (c.data + (CRLF + w));
    hide IsChunk, Wire, CRLF;
    Reassociates(c.line + CRLF, c.data, CRLF, w, x);
  }

  lemma {:induction false} BodyDecodes(chunks: seq<Chunk>, t: Tail)
    requires AllChunks(chunks) && IsTail(t)
    ensures Decode(SizeLine, Wire(chunks) + TailBytes(t)) == Prepend(Payload(chunks), Meaning(t))
  {
    hide *;
    if chunks == [] {
      NoChunks(t);
      NoPayload(Meaning(t));
      TailDecodes(t);
    } else {
      var c, rest := chunks[0], Wire(chunks[1..]) + TailBytes(t);
      FirstChunk(chunks, TailBytes(t));
      BodyDecodes(chunks[1..], t);
      ChunkDecodes(c, rest);
      PrependTwice(c.data, Payload(chunks[1..]), Meaning(t));
    }
  }

  lemma FirstCrlfCuts(s: bytes, i: nat)
    requires FindCrlf(s) == Some(i)
    ensures NoCrlf(s[..i]) && s == s[..i] + CRLF + s[i + 2..]
  {
    forall j: nat
      ensures !CrlfAt(s[..i], j)
    {
      assert CrlfAt(s[..i], j) ==> CrlfAt(s, j);
    }
    assert CrlfAt(s, i);
  }

  lemma LineIsSized(line: bytes)
    requires NoCrlf(line)
    ensures forall n: nat :: Sized(line, n) <==> LineSize(line) == Some(n)
  {
    hide NoCrlf, LineSize, Sized;
    forall n: nat
      ensures Sized(line, n) <==> LineSize(line) == Some(n)
    {
      SizedIsLineSize(line, n);
    }
  }

  lemma ConsChunk(c: Chunk, chunks: seq<Chunk>, t: Tail)
    requires IsChunk(c) && AllChunks(chunks)
    ensures AllChunks([c] + chunks)
    ensures Wire([c] + chunks) + TailBytes(t) == c.line + CRLF + (c.data + (CRLF + (Wire(chunks) + TailBytes(t))))
  {
    assert ([c] + chunks)[1..] == chunks;
    assert Wire([c] + chunks) == c.line + CRLF + (c.data + (CRLF + Wire(chunks)));
    hide IsChunk, Wire, CRLF, TailBytes;
    Reassociates(c.line + CRLF, c.data, CRLF, Wire(chunks), TailBytes(t));
  }

  /** A chunk is whole when its data and the CRLF behind them are there. */
  predicate IsWhole(n: nat, rest: bytes) {
    |rest| >= n + 2 && rest[n..n + 2] == CRLF
  }

  lemma CutChunkIsTail(line: bytes, n: nat, rest: bytes) returns (t: Tail)
    requires Sized(line, n) && n > 0 && !IsWhole(n, rest)
    ensures IsTail(t) && TailBytes(t) == line + CRLF + rest
  {
    hide Sized;
    if |rest| < n {
      return CutData(line, n, rest);
    }
    var data, more := rest[..n], rest[n..];
    assert rest == data + more && |data| == n;
    if |more| < 2 {
      return CutCrlf(line, data, more);
    }
    assert more[..2] == rest[n..n + 2];
    t := OtherBytes(line, data, more);
  }

  /** A body without a whole chunk at its front is a tail. */
  lemma LineIsTail(line: bytes, rest: bytes) returns (t: Tail)
    requires NoCrlf(line)
    requires LineSize(line).Some? && LineSize(line).value > 0 ==> !IsWhole(LineSize(line).value, rest)
    ensures IsTail(t) && TailBytes(t) == line + CRLF + rest
  {
    LineIsSized(line);
    var size := LineSize(line);
    hide LineSize, Sized, NoCrlf, IsWhole;
    if size.None? {
      return BadLine(line, rest);
    }
    if size.value == 0 {
      return LastChunk(line, rest);
    }
    t := CutChunkIsTail(line, size.value, rest);
  }

  lemma WholeChunk(line: bytes, n: nat, rest: bytes) returns (c: Chunk, more: bytes)
    requires Sized(line, n) && n > 0 && IsWhole(n, rest)
    ensures IsChunk(c) && c.line == line && rest == c.data + (CRLF + more) && |more| < |rest|
  {
    hide Sized;
    c, more := Chunk(line, rest[..n]), rest[n + 2..];
    assert rest == rest[..n] + (rest[n..n + 2] + rest[n + 2..]);
  }

  /** Every byte string is a body of this grammar. */
  lemma {:induction false} EveryBodyParses(s: bytes) returns (chunks: seq<Chunk>, t: Tail)
    ensures AllChunks(chunks) && IsTail(t) && s == Wire(chunks) + TailBytes(t)
    decreases |s|
  {
    var i := FindCrlf(s);
    if i.None? {
      t := NoLine(s);
      NoChunks(t);
      return [], t;
    }
    var line, rest := s[..i.value], s[i.value + 2..];
    FirstCrlfCuts(s, i.value);
    LineIsSized(line);
    var size := LineSize(line);
    hide *;
    if size.Some? && size.value > 0 && IsWhole(size.value, rest) {
      var c, more := WholeChunk(line, size.value, rest);
      chunks, t := EveryBodyParses(more);
      ConsChunk(c, chunks, t);
      chunks := [c] + chunks;
    } else {
      t := LineIsTail(line, rest);
      NoChunks(t);
      chunks := [];
    }
  }

  /** A body means exactly what its grammar says: the data of its whole chunks, then what its
      tail still gives, and the end that tail has. */
  lemma DecodeExactly(s: bytes, d: Decoded)
    ensures Decode(SizeLine, s) == d <==>
            exists chunks, t ::
              AllChunks(chunks) && IsTail(t) && s == Wire(chunks) + TailBytes(t) && d == Prepend(Payload(chunks), Meaning(t))
  {
    hide Decode, AllChunks, IsTail, Wire, TailBytes, Payload, Meaning, Prepend;
    var chunks, t := EveryBodyParses(s);
    BodyDecodes(chunks, t);
    forall chunks', t' | AllChunks(chunks') && IsTail(t') && s == Wire(chunks') + TailBytes(t')
      ensures Decode(SizeLine, s) == Prepend(Payload(chunks'), Meaning(t'))
    {
      BodyDecodes(chunks', t');
    }
  }
}
