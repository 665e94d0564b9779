/** The HTTP/1.1 chunked body writer (section 7.1 of RFC 9112), a poll-driven machine,
    and its round trip through the chunked reader. */
module ChunkedEncoder {
  import opened Bytes
  import opened ChunkedDecoder

  // ---------------------------------------------------------------- framing

  function HexChar(d: nat): byte
    requires d < 16
  {
    if d < 10 then 48 + d else 87 + d
  }

  /** Lower-case hexadecimal without leading zeros. */
  function Hex(n: nat): bytes {
    if n < 16 then [HexChar(n)] else Hex(n / 16) + [HexChar(n % 16)]
  }

  function Frame(buf: bytes): bytes {
    Hex(|buf|) + CRLF + buf + CRLF
  }

  function Frames(chunks: seq<bytes>): bytes {
    if chunks == [] then [] else Frame(chunks[0]) + Frames(chunks[1..])
  }

  const LAST_CHUNK: bytes := [48, CR, LF, CR, LF]

  predicate IsLowerHex(b: byte) {
    48 <= b <= 57 || 97 <= b <= 102
  }

  lemma {:induction false} HexShape(n: nat)
    ensures |Hex(n)| > 0
    ensures forall i :: 0 <= i < |Hex(n)| ==> IsLowerHex(Hex(n)[i])
  {
    if n >= 16 {
      HexShape(n / 16);
    }
  }

  /** Printing a size and reading it back are inverse. */
  lemma {:induction false} HexReadsBack(n: nat)
    ensures HexValue(Hex(n)) == Some(n)
  {
    if n < 16 {
      assert [HexChar(n)][..0] == [];
    } else {
      HexReadsBack(n / 16);
      var s := Hex(n);
      assert s[..|s| - 1] == Hex(n / 16);
      assert n == n / 16 * 16 + n % 16;
    }
  }

  lemma {:induction false} NoSemicolon(s: bytes)
    requires forall i :: 0 <= i < |s| ==> IsLowerHex(s[i])
    ensures BeforeSemicolon(s) == s
  {
    if s != [] {
      NoSemicolon(s[1..]);
    }
  }

  lemma SpaceIsNotHex(c: bytes)
    requires IsSpace(c)
    ensures c != [] && !IsLowerHex(c[0]) && !IsLowerHex(c[|c| - 1])
  {
  }

  lemma NoSpaceBefore(s: bytes)
    requires s != [] && IsLowerHex(s[0])
    ensures SpaceAtStart(s) == 0
  {
    hide IsSpace, IsLowerHex;
    var n := SpaceAtStart(s);
    if n > 0 {
      SpaceIsNotHex(s[..n]);
      assert false;
    }
  }

  lemma NoSpaceBehind(s: bytes)
    requires s != [] && IsLowerHex(s[|s| - 1])
    ensures SpaceAtEnd(s) == 0
  {
    hide IsSpace, IsLowerHex;
    var n := SpaceAtEnd(s);
    if n > 0 {
      SpaceIsNotHex(s[|s| - n..]);
      assert false;
    }
  }

  lemma NothingToTrim(s: bytes)
    requires s != [] && IsLowerHex(s[0]) && IsLowerHex(s[|s| - 1])
    ensures TrimStart(s) == s && TrimEnd(s) == s
  {
    hide SpaceAtStart, SpaceAtEnd, IsLowerHex;
    NoSpaceBefore(s);
    NoSpaceBehind(s);
  }

  lemma SizeReadsBack(n: nat)
    requires n < USIZE_LIMIT
    ensures LineSize(Hex(n)) == Some(n)
  {
    var s := Hex(n);
    HexShape(n);
    AsciiIsUtf8(s);
    NoSemicolon(s);
    assert IsLowerHex(s[0]) && IsLowerHex(s[|s| - 1]);
    NothingToTrim(s);
    HexReadsBack(n);
    hide IsSpace, Hex, TrimStart, TrimEnd;
  }

  lemma SizeLineEnds(n: nat, t: bytes)
    ensures FindCrlf(Hex(n) + CRLF + t) == Some(|Hex(n)|)
  {
    HexShape(n);
    var s := Hex(n) + CRLF + t;
    assert CrlfAt(s, |Hex(n)|);
    forall i: nat | i < |Hex(n)|
      ensures !CrlfAt(s, i)
    {
      assert s[i] == Hex(n)[i];
    }
  }

  predicate Sendable(chunks: seq<bytes>) {
    forall i :: 0 <= i < |chunks| ==> 0 < |chunks[i]| < USIZE_LIMIT
  }

  lemma CrlfDecodes(t: bytes)
    ensures Decode(DataCrlf, CRLF + t) == Decode(SizeLine, t)
  {
    assert (CRLF + t)[..2] == CRLF && (CRLF + t)[2..] == t;
  }

  lemma ChunkDecodes(buf: bytes, t: bytes)
    requires buf != []
    ensures Decode(Data(|buf|), buf + CRLF + t) == Prepend(buf, Decode(SizeLine, t))
  {
    var body := buf + CRLF + t;
    assert body[..|buf|] == buf;
    assert body[|buf|..] == CRLF + t;
    CrlfDecodes(t);
  }

  lemma SizeLineDecodes(n: nat, t: bytes)
    requires n < USIZE_LIMIT
    ensures Decode(SizeLine, Hex(n) + CRLF + t) == if n == 0 then Decoded([], Eof) else Decode(Data(n), t)
  {
    var line := Hex(n) + CRLF;
    SizeLineEnds(n, []);
    SizeReadsBack(n);
    assert line + [] == line;
    assert line[..|Hex(n)|] == Hex(n);
    assert line[|Hex(n)| + 2..] + t == t;
    LineDecides(line, t, |Hex(n)|);
  }

  /** The reader takes one frame off the front of anything. */
  lemma FrameDecodes(buf: bytes, t: bytes)
    requires 0 < |buf| < USIZE_LIMIT
    ensures Decode(SizeLine, Frame(buf) + t) == Prepend(buf, Decode(SizeLine, t))
  {
    assert Frame(buf) + t == Hex(|buf|) + CRLF + (buf + CRLF + t);
    SizeLineDecodes(|buf|, buf + CRLF + t);
    ChunkDecodes(buf, t);
  }

  lemma LastChunkDecodes(t: bytes)
    ensures Decode(SizeLine, LAST_CHUNK + t) == Decoded([], Eof)
  {
    assert LAST_CHUNK + t == Hex(0) + CRLF + (CRLF + t);
    SizeLineDecodes(0, CRLF + t);
  }

  lemma FramesFirst(chunks: seq<bytes>, t: bytes)
    requires chunks != []
    ensures Frames(chunks) + t == Frame(chunks[0]) + (Frames(chunks[1..]) + t)
  {
  }

  lemma {:induction false} FramesDecode(chunks: seq<bytes>, t: bytes, d: Decoded)
    requires Sendable(chunks) && d == Decode(SizeLine, t)
    ensures Decode(SizeLine, Frames(chunks) + t) == Prepend(Concat(chunks), d)
  {
    if chunks == [] {
      assert Frames(chunks) + t == t;
    } else {
      FramesDecode(chunks[1..], t, d);
      FramesFirst(chunks, t);
      FrameDecodes(chunks[0], Frames(chunks[1..]) + t);
      PrependTwice(chunks[0], Concat(chunks[1..]), d);
    }
  }

  /** Round trip: any list of non-empty chunks, framed and closed, means exactly the
      chunks' bytes and then end of stream, whatever follows. */
  lemma RoundTrip(chunks: seq<bytes>, t: bytes)
    requires Sendable(chunks)
    ensures Decode(SizeLine, Frames(chunks) + LAST_CHUNK + t) == Decoded(Concat(chunks), Eof)
  {
    LastChunkDecodes(t);
    FramesDecode(chunks, LAST_CHUNK + t, Decoded([], Eof));
    assert Frames(chunks) + LAST_CHUNK + t == Frames(chunks) + (LAST_CHUNK + t);
  }

  lemma {:induction false} FramesAppend(chunks: seq<bytes>, buf: bytes)
    ensures Frames(chunks + [buf]) == Frames(chunks) + Frame(buf)
  {
    hide Frame;
    if chunks == [] {
      assert chunks + [buf] == [buf];
      assert [buf][1..] == [];
    } else {
      FramesAppend(chunks[1..], buf);
      assert (chunks + [buf])[1..] == chunks[1..] + [buf];
    }
  }

  // ---------------------------------------------------------------- one poll, as a relation

  datatype State = State(wire: bytes, pending: bytes, report: nat, closing: bool, closed: bool)

  datatype WriteResult = Accepted(n: nat) | Rejected | WritePending | WriteFailed
  datatype PollResult = Done | NotReady | PollFailed

  datatype Event =
    | Write(buf: bytes, write: WriteResult)
    | Flush(poll: PollResult)
    | Shutdown(poll: PollResult)

  /** Some prefix of `s.pending` moved to the wire and nothing else changed. */
  predicate Drained(s: State, s': State) {
    && |s'.pending| <= |s.pending|
    && s'.pending == s.pending[|s.pending| - |s'.pending|..]
    && s'.wire == s.wire + s.pending[..|s.pending| - |s'.pending|]
    && s' == s.(wire := s'.wire, pending := s'.pending)
  }

  lemma DrainedAll(s: State, s': State)
    requires Drained(s, s') && s'.pending == []
    ensures s' == s.(wire := s.wire + s.pending, pending := [])
  {
    assert s.pending[..|s.pending|] == s.pending;
  }

  function Framed(s: State, buf: bytes): State {
    if s.pending == [] then s.(pending := Frame(buf), report := |buf|) else s
  }

  predicate WriteStep(s: State, buf: bytes, r: WriteResult, s': State) {
    if s.closed || s.closing then r == Rejected && s' == s
    else if buf == [] then r == Accepted(0) && s' == s
    else
      var f := Framed(s, buf);
      match r
      case Accepted(n) => n == f.report && s' == f.(wire := f.wire + f.pending, pending := [], report := 0)
      case Rejected => false
      case _ => Drained(f, s') && s'.pending != []
  }

  predicate FlushStep(s: State, r: PollResult, s': State) {
    Drained(s, s') && (r.Done? ==> s'.pending == [])
  }

  function Closing(s: State): State {
    s.(wire := s.wire + s.pending, pending := LAST_CHUNK, report := 0, closing := true)
  }

  predicate CloseStep(s: State, r: PollResult, s': State) {
    && Drained(s, s'.(closed := s.closed))
    && s'.closed == (s'.pending == [])
    && (r.Done? ==> s'.closed)
  }

  lemma CloseIs(s: State, m: State, r: PollResult)
    requires !s.closed && Drained(s, m) && (r.Done? ==> m.pending == [])
    ensures !m.closed && CloseStep(s, r, m.(closed := m.pending == []))
  {
    assert m.closed == s.closed;
    hide Drained;
    assert m.(closed := m.pending == []).(closed := s.closed) == m;
  }

  predicate ShutdownStep(s: State, r: PollResult, s': State) {
    if s.closed then s' == s
    else if s.closing then CloseStep(s, r, s')
    else
      || (Drained(s, s') && s'.pending != [] && !r.Done?)
      || CloseStep(Closing(s), r, s')
  }

  predicate Step(s: State, e: Event, s': State) {
    match e
    case Write(buf, r) => WriteStep(s, buf, r, s')
    case Flush(r) => FlushStep(s, r, s')
    case Shutdown(r) => ShutdownStep(s, r, s')
  }

  const START := State([], [], 0, false, false)

  // ---------------------------------------------------------------- the machine

  datatype InnerWrite = Wrote(n: nat) | Blocked | Broken

  function Count(b: bool): nat {
    if b then 1 else 0
  }

  /** The stream under the encoder; the environment decides how much it takes and when. It
      refuses a write by taking nothing, and a flush or shutdown by not finishing it. */
  class Sink {
    var wire: bytes  // what was written since the encoder was put on top
    ghost var blocks: nat  // refusals for now
    ghost var failures: nat  // refusals for good
    ghost var flushes: nat
    ghost var shutdowns: nat

    constructor ()
      ensures wire == [] && blocks == 0 && failures == 0 && flushes == 0 && shutdowns == 0
    {
      wire := [];
      blocks, failures, flushes, shutdowns := 0, 0, 0, 0;
    }

    method PollWrite(buf: bytes) returns (r: InnerWrite)
      modifies this`wire, this`blocks, this`failures
      ensures r.Wrote? ==> r.n <= |buf| && wire == old(wire) + buf[..r.n]
      ensures !r.Wrote? ==> wire == old(wire)
      ensures blocks == old(blocks) + if buf != [] && r.Blocked? then 1 else 0
      ensures failures == old(failures) + if buf != [] && (r.Broken? || r == Wrote(0)) then 1 else 0
    {
      r := *;
      if r.Wrote? {
        var n: nat :| n <= |buf|;
        wire := wire + buf[..n];
        r := Wrote(n);
      }
      blocks := blocks + if buf != [] && r.Blocked? then 1 else 0;
      failures := failures + if buf != [] && (r.Broken? || r == Wrote(0)) then 1 else 0;
    }

    method PollFlush() returns (r: PollResult)
      modifies this`blocks, this`failures, this`flushes
      ensures blocks == old(blocks) + Count(r.NotReady?) && failures == old(failures) + Count(r.PollFailed?)
      ensures flushes == old(flushes) + Count(r.Done?)
    {
      r := *;
      blocks, failures, flushes := blocks + Count(r.NotReady?), failures + Count(r.PollFailed?), flushes + Count(r.Done?);
    }

    method PollShutdown() returns (r: PollResult)
      modifies this`blocks, this`failures, this`shutdowns
      ensures blocks == old(blocks) + Count(r.NotReady?) && failures == old(failures) + Count(r.PollFailed?)
      ensures shutdowns == old(shutdowns) + Count(r.Done?)
    {
      r := *;
      blocks, failures, shutdowns := blocks + Count(r.NotReady?), failures + Count(r.PollFailed?), shutdowns + Count(r.Done?);
    }
  }

  class Encoder {
    const inner: Sink
    var pending: bytes
    var pendingReport: nat
    var closing: bool
    var closed: bool

    constructor (inner: Sink)
      requires inner.wire == []
      ensures this.inner == inner && View() == START
    {
      this.inner := inner;
      pending := [];
      pendingReport := 0;
      closing := false;
      closed := false;
    }

    ghost function View(): State
      reads this, inner
    {
      State(inner.wire, pending, pendingReport, closing, closed)
    }

    /** Write what is pending. It stops early only where the stream refused. */
    method PollWritePending() returns (r: PollResult)
      modifies this`pending, inner`wire, inner`blocks, inner`failures
      ensures Drained(old(View()), View())
      ensures r.Done? <==> pending == []
      ensures inner.blocks == old(inner.blocks) + Count(r.NotReady?)
      ensures inner.failures == old(inner.failures) + Count(r.PollFailed?)
    {
      ghost var all := pending;
      ghost var wire := inner.wire;
      while pending != []
        invariant |pending| <= |all|
        invariant pending == all[|all| - |pending|..]
        invariant inner.wire == wire + all[..|all| - |pending|]
        invariant inner.blocks == old(inner.blocks) && inner.failures == old(inner.failures)
        decreases |pending|
      {
        ghost var at := |all| - |pending|;
        var w := inner.PollWrite(pending);
        match w
        case Blocked => return NotReady;
        case Broken => return PollFailed;
        case Wrote(n) =>
          if n == 0 {
            return PollFailed;
          }
          assert all[..at] + all[at..][..n] == all[..at + n];
          pending := pending[n..];
      }
      r := Done;
    }

    /** A write that was not refused by the stream, nor rejected, is accepted. */
    method PollWrite(buf: bytes) returns (r: WriteResult)
      modifies this, inner
      ensures WriteStep(old(View()), buf, r, View())
      ensures inner.blocks == old(inner.blocks) + Count(r.WritePending?)
      ensures inner.failures == old(inner.failures) + Count(r.WriteFailed?)
      ensures inner.flushes == old(inner.flushes) && inner.shutdowns == old(inner.shutdowns)
    {
      if closed || closing {
        return Rejected;
      }
      if buf == [] {
        return Accepted(0);
      }
      if pending == [] {
        pending := Frame(buf);
        pendingReport := |buf|;
      }
      hide Drained;
      ghost var f := View();
      assert f == Framed(old(View()), buf);
      var p := PollWritePending();
      match p
      case Done =>
        DrainedAll(f, View());
        r := Accepted(pendingReport);
        pendingReport := 0;
      case NotReady => r := WritePending;
      case PollFailed => r := WriteFailed;
    }

    /** A flush that was not refused has flushed the stream behind everything pending. */
    method PollFlush() returns (r: PollResult)
      modifies this, inner
      ensures FlushStep(old(View()), r, View())
      ensures inner.blocks == old(inner.blocks) + Count(r.NotReady?)
      ensures inner.failures == old(inner.failures) + Count(r.PollFailed?)
      ensures inner.flushes == old(inner.flushes) + Count(r.Done?)
      ensures inner.shutdowns == old(inner.shutdowns)
    {
      hide Drained;
      r := PollWritePending();
      ghost var m := View();
      if r.Done? {
        r := inner.PollFlush();
      }
      assert View() == m;
    }

    /** Put the last chunk behind everything pending, once that is out. */
    method StartClosing() returns (r: PollResult)
      requires !closing && !closed
      modifies this, inner`wire, inner`blocks, inner`failures
      ensures r.Done? ==> View() == Closing(old(View()))
      ensures !r.Done? ==> Drained(old(View()), View()) && pending != []
      ensures inner.blocks == old(inner.blocks) + Count(r.NotReady?)
      ensures inner.failures == old(inner.failures) + Count(r.PollFailed?)
    {
      r := PollWritePending();
      if r.Done? {
        DrainedAll(old(View()), View());
        hide Drained;
        pending := LAST_CHUNK;
        pendingReport := 0;
        closing := true;
      }
    }

    /** Send the last chunk, or what is left of it, and shut the stream down behind it. */
    method Close() returns (r: PollResult)
      requires closing && !closed
      modifies this, inner
      ensures CloseStep(old(View()), r, View())
      ensures r.Done? ==> closed
      ensures inner.blocks == old(inner.blocks) + Count(r.NotReady?)
      ensures inner.failures == old(inner.failures) + Count(r.PollFailed?)
      ensures inner.shutdowns == old(inner.shutdowns) + Count(r.Done?)
      ensures inner.flushes == old(inner.flushes)
    {
      hide Drained, CloseStep;
      r := PollWritePending();
      ghost var m := View();
      if r.Done? {
        closed := true;
        r := inner.PollShutdown();
      }
      CloseIs(old(View()), m, r);
      assert View() == m.(closed := m.pending == []);
    }

    /** A shutdown that was not refused has closed the writer and shut the stream down. */
    method PollShutdown() returns (r: PollResult)
      modifies this, inner
      ensures ShutdownStep(old(View()), r, View())
      ensures r.Done? ==> closed
      ensures inner.blocks == old(inner.blocks) + Count(r.NotReady?)
      ensures inner.failures == old(inner.failures) + Count(r.PollFailed?)
      ensures inner.shutdowns == old(inner.shutdowns) + Count(r.Done?)
      ensures inner.flushes == old(inner.flushes)
    {
      hide Drained, CloseStep;
      if closed {
        r := inner.PollShutdown();
        assert View() == old(View());
        return;
      }
      if !closing {
        r := StartClosing();
        if !r.Done? {
          return;
        }
      }
      r := Close();
    }
  }

  // ---------------------------------------------------------------- whole runs

  /** A run: the polls so far, each with the state it left behind. */
  datatype Run = Start | Then(prev: Run, event: Event, state: State)

  function Last(run: Run): State {
    if run.Start? then START else run.state
  }

  predicate IsRun(run: Run) {
    run.Then? ==> IsRun(run.prev) && Step(Last(run.prev), run.event, run.state)
  }

  /** What a run did: the buffers it framed, the bytes it reported as accepted, the
      buffer of a write that has not been answered yet, and whether a flush or a
      shutdown ever finished such a write behind the caller's back. */
  datatype History = History(chunks: seq<bytes>, accepted: bytes, inFlight: bytes, overtaken: bool)

  function Record(h: History, s: State, e: Event, s': State): History {
    match e
    case Write(buf, r) =>
      if s.closed || s.closing || buf == [] then h
      else
        var chunks := if s.pending == [] then h.chunks + [buf] else h.chunks;
        var owner := if s.pending == [] then buf else h.inFlight;
        if r.Accepted? then History(chunks, h.accepted + buf[..Min(r.n, |buf|)], [], h.overtaken)
        else History(chunks, h.accepted, owner, h.overtaken)
    case _ =>
      if h.inFlight != [] && (s'.pending == [] || s'.closing)
      then History(h.chunks, h.accepted, [], true)
      else h
  }

  function RunHistory(run: Run): History {
    if run.Start? then History([], [], [], false)
    else Record(RunHistory(run.prev), Last(run.prev), run.event, run.state)
  }

  /** A buffer is a slice, and no longer than one can be. */
  predicate Sized(e: Event) {
    e.Write? ==> |e.buf| < USIZE_LIMIT
  }

  predicate AllSized(run: Run) {
    run.Then? ==> AllSized(run.prev) && Sized(run.event)
  }

  /** Callers retry an unanswered write with a buffer that extends the first one, as
      `poll_write` asks of them. */
  predicate Retries(h: History, e: Event) {
    e.Write? ==> h.inFlight <= e.buf
  }

  predicate AllRetry(run: Run) {
    run.Then? ==> AllRetry(run.prev) && Retries(RunHistory(run.prev), run.event)
  }

  /** Bytes on the wire and bytes on their way are always the framing of the chunks. */
  ghost predicate WireInv(s: State, h: History) {
    && s.wire + s.pending == Frames(h.chunks) + (if s.closing then LAST_CHUNK else [])
    && (s.closed ==> s.closing && s.pending == [])
    && (!s.closing ==> (h.inFlight == [] <==> s.pending == []))
    && (s.closing ==> h.inFlight == [])
    && (h.inFlight != [] ==> s.report == |h.inFlight|)
    && Sendable(h.chunks)
  }

  /** Bytes framed against bytes answered for. */
  ghost predicate Account(h: History) {
    if h.overtaken then |Concat(h.chunks)| > |h.accepted| + |h.inFlight|
    else Concat(h.chunks) == h.accepted + h.inFlight
  }

  lemma DrainKeeps(s: State, s': State)
    requires Drained(s, s')
    ensures s'.wire + s'.pending == s.wire + s.pending
  {
    var k := |s.pending| - |s'.pending|;
    assert s.pending == s.pending[..k] + s.pending[k..];
  }

  /** A buffer framed now is one more chunk on its way. */
  lemma FramingExtends(s: State, h: History, buf: bytes)
    requires WireInv(s, h) && !s.closing && s.pending == [] && 0 < |buf| < USIZE_LIMIT
    ensures s.wire + Frame(buf) == Frames(h.chunks + [buf]) && Sendable(h.chunks + [buf])
  {
    hide Frame, Frames;
    FramesAppend(h.chunks, buf);
    assert s.wire + [] == s.wire && Frames(h.chunks) + [] == Frames(h.chunks);
  }

  /** After the frame is in place, the write leaves it partly or wholly on the wire. */
  lemma FramedIsSent(s: State, h: History, f: State, h': History, buf: bytes, r: WriteResult, s': State)
    requires !s.closed && !s.closing && buf != [] && WriteStep(s, buf, r, s') && f == Framed(s, buf)
    requires h' == Record(h, s, Write(buf, r), s') && f.wire + f.pending == Frames(h'.chunks) && Sendable(h'.chunks)
    requires h'.inFlight != [] <==> !r.Accepted?
    requires h'.inFlight != [] ==> f.report == |h'.inFlight|
    ensures WireInv(s', h')
  {
    hide Frame, Frames, Sendable, Record;
    assert Frames(h'.chunks) + [] == Frames(h'.chunks);
    if r.Accepted? {
      assert f.wire + f.pending + [] == f.wire + f.pending;
    } else {
      DrainKeeps(f, s');
    }
  }

  lemma WriteKeepsWire(s: State, h: History, buf: bytes, r: WriteResult, s': State)
    requires WireInv(s, h) && WriteStep(s, buf, r, s') && Sized(Write(buf, r))
    ensures WireInv(s', Record(h, s, Write(buf, r), s'))
  {
    if !s.closed && !s.closing && buf != [] {
      hide Frame, Frames, Drained, Sendable;
      assert Frames(h.chunks) + [] == Frames(h.chunks);
      if s.pending == [] {
        FramingExtends(s, h, buf);
      }
      FramedIsSent(s, h, Framed(s, buf), Record(h, s, Write(buf, r), s'), buf, r, s');
    }
  }

  lemma CloseKeepsWire(s: State, h: History, r: PollResult, s': State)
    requires WireInv(s, h) && ShutdownStep(s, r, s')
    ensures WireInv(s', Record(h, s, Shutdown(r), s'))
  {
    if s.closed {
    } else if s.closing {
      DrainKeeps(s, s'.(closed := s.closed));
    } else if Drained(s, s') && s'.pending != [] {
      DrainKeeps(s, s');
    } else {
      var c := Closing(s);
      DrainKeeps(c, s'.(closed := c.closed));
      assert c.wire + c.pending == Frames(h.chunks) + LAST_CHUNK;
    }
  }

  lemma StepKeepsWire(s: State, h: History, e: Event, s': State)
    requires WireInv(s, h) && Step(s, e, s') && Sized(e)
    ensures WireInv(s', Record(h, s, e, s'))
  {
    match e
    case Write(buf, r) => WriteKeepsWire(s, h, buf, r, s');
    case Flush(r) => DrainKeeps(s, s');
    case Shutdown(r) => CloseKeepsWire(s, h, r, s');
  }

  /** A buffer framed now is owed in full until it is answered. */
  lemma FreshWriteKeepsAccount(s: State, h: History, buf: bytes, r: WriteResult, s': State)
    requires WireInv(s, h) && Account(h) && WriteStep(s, buf, r, s')
    requires !s.closed && !s.closing && buf != [] && s.pending == []
    ensures Account(Record(h, s, Write(buf, r), s'))
  {
    ConcatSnoc(h.chunks, buf);
    assert buf[..|buf|] == buf && h.accepted + [] == h.accepted;
  }

  lemma RetryKeepsAccount(s: State, h: History, buf: bytes, r: WriteResult, s': State)
    requires WireInv(s, h) && Account(h) && WriteStep(s, buf, r, s') && Retries(h, Write(buf, r))
    requires !s.closed && !s.closing && buf != [] && s.pending != []
    ensures Account(Record(h, s, Write(buf, r), s'))
  {
    var b := h.inFlight;
    assert buf[..|b|] == b && h.accepted + b + [] == h.accepted + b;
  }

  lemma StepKeepsAccount(s: State, h: History, e: Event, s': State)
    requires WireInv(s, h) && Account(h) && Step(s, e, s') && Retries(h, e)
    ensures Account(Record(h, s, e, s'))
  {
    if e.Write? && !s.closed && !s.closing && e.buf != [] {
      if s.pending == [] {
        FreshWriteKeepsAccount(s, h, e.buf, e.write, s');
      } else {
        RetryKeepsAccount(s, h, e.buf, e.write, s');
      }
    }
  }

  lemma {:induction false} RunKeepsWire(run: Run)
    requires IsRun(run) && AllSized(run)
    ensures WireInv(Last(run), RunHistory(run))
  {
    if run.Then? {
      RunKeepsWire(run.prev);
      StepKeepsWire(Last(run.prev), RunHistory(run.prev), run.event, run.state);
    }
  }

  lemma {:induction false} RunKeepsAccount(run: Run)
    requires IsRun(run) && AllSized(run) && AllRetry(run)
    ensures Account(RunHistory(run))
  {
    if run.Then? {
      RunKeepsAccount(run.prev);
      RunKeepsWire(run.prev);
      StepKeepsAccount(Last(run.prev), RunHistory(run.prev), run.event, run.state);
    }
  }

  /** In every run, whatever the callers retry with, the wire holds a prefix of the framing
      of the framed buffers plus one last chunk, and all of it once the writer has closed. */
  lemma WireIsFraming(run: Run)
    requires IsRun(run) && AllSized(run)
    ensures var s, full := Last(run), Frames(RunHistory(run).chunks) + LAST_CHUNK;
            && s.wire <= full
            && (s.wire == full <==> s.closing && s.pending == [])
            && (s.closed ==> s.wire == full)
    ensures Sendable(RunHistory(run).chunks)
  {
    RunKeepsWire(run);
    var s, h := Last(run), RunHistory(run);
    assert s.wire <= s.wire + s.pending;
    assert |s.wire + s.pending| == |s.wire| + |s.pending|;
  }

  /** Exactly once: every framed byte is a byte reported as accepted, or belongs to the
      write still in flight, if and only if no flush or shutdown overtook a write. */
  lemma ExactlyOnce(run: Run)
    requires IsRun(run) && AllSized(run) && AllRetry(run)
    ensures var h := RunHistory(run);
            Concat(h.chunks) == h.accepted + h.inFlight <==> !h.overtaken
  {
    RunKeepsAccount(run);
  }

  /** A caller that neither flushes nor shuts down over an unanswered write. */
  predicate Patient(run: Run) {
    run.Then? ==> Patient(run.prev) && (RunHistory(run.prev).inFlight != [] ==> run.event.Write?)
  }

  lemma {:induction false} PatienceSuffices(run: Run)
    requires Patient(run)
    ensures !RunHistory(run).overtaken
  {
    if run.Then? {
      PatienceSuffices(run.prev);
    }
  }

  /** End to end: after any patient run that closes the writer, the wire means exactly
      the accepted bytes and then end of stream. */
  lemma WriterMeetsReader(run: Run)
    requires IsRun(run) && AllSized(run) && AllRetry(run) && Patient(run) && Last(run).closed
    ensures Decode(SizeLine, Last(run).wire) == Decoded(RunHistory(run).accepted, Eof)
  {
    RunKeepsWire(run);
    RunKeepsAccount(run);
    WireIsFraming(run);
    PatienceSuffices(run);
    RoundTrip(RunHistory(run).chunks, []);
    assert Last(run).wire + [] == Last(run).wire;
  }

  lemma RunGrows(run: Run, e: Event, s': State)
    requires IsRun(run) && AllSized(run) && AllRetry(run)
    requires Step(Last(run), e, s') && Sized(e) && Retries(RunHistory(run), e)
    ensures IsRun(Then(run, e, s')) && AllSized(Then(run, e, s')) && AllRetry(Then(run, e, s'))
    ensures RunHistory(Then(run, e, s')) == Record(RunHistory(run), Last(run), e, s')
  {
    hide Step, Record, Sized, Retries;
  }

  /** Three polls: the write is held up, the flush sends its frame, the retry sends another. */
  lemma DuplicatingSteps(buf: bytes)
    requires buf != []
    ensures var f, n := Frame(buf), |buf|;
            && Step(START, Write(buf, WritePending), State([], f, n, false, false))
            && Step(State([], f, n, false, false), Flush(Done), State(f, [], n, false, false))
            && Step(State(f, [], n, false, false), Write(buf, Accepted(n)), State(f + f, [], 0, false, false))
  {
    var f := Frame(buf);
    assert f != [];
    hide Frame;
    assert f[0..] == f && f[|f|..] == [] && f[..0] == [] && f[..|f|] == f && [] + f == f && [] + f[..0] == [];
  }

  /** Without patience bytes go out twice: a write is held up, a flush finishes it, and
      the retry frames the same buffer again. */
  lemma FlushCanDuplicate(buf: bytes)
    requires 0 < |buf| < USIZE_LIMIT
    ensures exists run: Run ::
              && IsRun(run) && AllSized(run) && AllRetry(run)
              && RunHistory(run).accepted == buf
              && Last(run).wire == Frame(buf) + Frame(buf)
  {
    var f, n := Frame(buf), |buf|;
    var held, flushed, last := State([], f, n, false, false), State(f, [], n, false, false), State(f + f, [], 0, false, false);
    assert f != [];
    DuplicatingSteps(buf);
    hide Step, Frame;
    assert RunHistory(Start) == History([], [], [], false) && IsRun(Start) && AllSized(Start) && AllRetry(Start);
    var run1 := Then(Start, Write(buf, WritePending), held);
    var run2 := Then(run1, Flush(Done), flushed);
    hide IsRun, AllSized, AllRetry, RunHistory;
    RunGrows(Start, Write(buf, WritePending), held);
    RunGrows(run1, Flush(Done), flushed);
    RunGrows(run2, Write(buf, Accepted(n)), last);
    assert [] + buf[..n] == buf;
  }

  /** The whole stream: what a patient writer closed on the wire reaches the reader,
      with any part of it buffered beforehand, any buffer sizes and any fragmentation.
      Until the end has come, every poll with room that the source did not hold up has
      brought at least one byte. */
  method StreamDelivers(ghost run: Run, source: Source, buffered: bytes, rooms: seq<nat>)
    returns (out: bytes, end: Option<End>)
    requires IsRun(run) && AllSized(run) && AllRetry(run) && Patient(run) && Last(run).closed
    requires buffered + source.rest == Last(run).wire
    modifies source
    ensures out <= RunHistory(run).accepted
    ensures end.Some? ==> end.value == Eof && out == RunHistory(run).accepted
    ensures end.None? ==> |rooms| <= |out| + (source.held - old(source.held)) + Roomless(rooms)
  {
    WriterMeetsReader(run);
    var decoder := new Decoder(source, buffered);
    out, end := ReadAll(decoder, rooms);
  }
}
