/** The HTTP/1.1 chunked body reader (section 7.1 of RFC 9112), a poll-driven machine. */
module ChunkedDecoder {
  import opened Bytes

  const CR: byte := 13
  const LF: byte := 10
  const SEMICOLON: byte := 59
  const CRLF: bytes := [CR, LF]
  const USIZE_LIMIT: nat := 0x1_0000_0000_0000_0000

  // ---------------------------------------------------------------- size lines

  predicate CrlfAt(s: bytes, i: nat) {
    i + 1 < |s| && s[i] == CR && s[i + 1] == LF
  }

  /** Position of the first CRLF. */
  function FindCrlf(s: bytes): (r: Option<nat>)
    ensures r.Some? ==> CrlfAt(s, r.value) && forall i: nat :: i < r.value ==> !CrlfAt(s, i)
    ensures r.None? ==> forall i: nat :: !CrlfAt(s, i)
  {
    if |s| < 2 then None
    else if s[0] == CR && s[1] == LF then Some(0)
    else
      var t := FindCrlf(s[1..]);
      assert forall i: nat :: i > 0 && CrlfAt(s, i) ==> CrlfAt(s[1..], i - 1);
      assert t.Some? ==> CrlfAt(s, t.value + 1);
      if t.Some? then Some(t.value + 1) else None
  }

  /** Bytes that arrive later cannot move a CRLF that is already there. */
  lemma CrlfStays(s: bytes, t: bytes)
    requires FindCrlf(s).Some?
    ensures FindCrlf(s + t) == FindCrlf(s)
  {
    var i := FindCrlf(s).value;
    assert CrlfAt(s + t, i);
    assert forall j: nat :: j < i ==> CrlfAt(s + t, j) == CrlfAt(s, j);
  }

  function BeforeSemicolon(s: bytes): bytes {
    if s == [] || s[0] == SEMICOLON then [] else [s[0]] + BeforeSemicolon(s[1..])
  }

  /** The characters with the Unicode White_Space property, as UTF-8. */
  predicate IsSpace(c: bytes) {
    || (|c| == 1 && (9 <= c[0] <= 13 || c[0] == 32))
    || c == [0xC2, 0x85] || c == [0xC2, 0xA0]
    || c == [0xE1, 0x9A, 0x80]
    || (|c| == 3 && c[0] == 0xE2 && c[1] == 0x80
        && (0x80 <= c[2] <= 0x8A || c[2] == 0xA8 || c[2] == 0xA9 || c[2] == 0xAF))
    || c == [0xE2, 0x81, 0x9F]
    || c == [0xE3, 0x80, 0x80]
  }

  /** Length of the white space character at the start, 0 when there is none. */
  function SpaceAtStart(s: bytes): (n: nat)
    ensures n <= |s|
  {
    if |s| >= 1 && IsSpace(s[..1]) then 1
    else if |s| >= 2 && IsSpace(s[..2]) then 2
    else if |s| >= 3 && IsSpace(s[..3]) then 3
    else 0
  }

  function SpaceAtEnd(s: bytes): (n: nat)
    ensures n <= |s|
  {
    if |s| >= 1 && IsSpace(s[|s| - 1..]) then 1
    else if |s| >= 2 && IsSpace(s[|s| - 2..]) then 2
    else if |s| >= 3 && IsSpace(s[|s| - 3..]) then 3
    else 0
  }

  function TrimStart(s: bytes): bytes
    decreases |s|
  {
    if SpaceAtStart(s) == 0 then s else TrimStart(s[SpaceAtStart(s)..])
  }

  function TrimEnd(s: bytes): bytes
    decreases |s|
  {
    if SpaceAtEnd(s) == 0 then s else TrimEnd(s[..|s| - SpaceAtEnd(s)])
  }

  function HexDigit(b: byte): (r: Option<nat>)
    ensures r.Some? ==> r.value < 16
  {
    if 48 <= b <= 57 then Some(b - 48)
    else if 97 <= b <= 102 then Some(b - 87)
    else if 65 <= b <= 70 then Some(b - 55)
    else None
  }

  /** The value of a run of hexadecimal digits of either case, most significant first. */
  function HexValue(s: bytes): Option<nat> {
    if s == [] then Some(0)
    else
      var high := HexValue(s[..|s| - 1]);
      var low := HexDigit(s[|s| - 1]);
      if high.Some? && low.Some? then Some(high.value * 16 + low.value) else None
  }

  const PLUS: byte := 43

  /** `usize::from_str_radix(s, 16)` on a 64-bit target. */
  function ParseHex(s: bytes): Option<nat> {
    var digits := if s != [] && s[0] == PLUS then s[1..] else s;
    if digits == [] then None
    else
      var v := HexValue(digits);
      if v.Some? && v.value < USIZE_LIMIT then v else None
  }

  /** The size announced by a size line, without its CRLF. */
  function LineSize(line: bytes): Option<nat> {
    if Utf8(line) then ParseHex(TrimEnd(TrimStart(BeforeSemicolon(line)))) else None
  }

  // ---------------------------------------------------------------- the meaning of a byte string

  datatype Phase = SizeLine | Data(remaining: nat) | DataCrlf

  datatype End = Eof | BadSize | EofMidChunk | EofAfterChunk | MissingCrlf

  datatype Decoded = Decoded(output: bytes, end: End)

  function Prepend(data: bytes, d: Decoded): Decoded {
    Decoded(data + d.output, d.end)
  }

  lemma PrependTwice(a: bytes, b: bytes, d: Decoded)
    ensures Prepend(a, Prepend(b, d)) == Prepend(a + b, d)
  {
    assert a + (b + d.output) == (a + b) + d.output;
  }

  function Rank(p: Phase): nat {
    match p
    case SizeLine => 0
    case DataCrlf => 1
    case Data(_) => 2
  }

  /** What the bytes `s`, and then end of stream, mean to a reader in phase `p`. */
  function Decode(p: Phase, s: bytes): Decoded
    decreases |s|, Rank(p)
  {
    match p
    case SizeLine =>
      var i := FindCrlf(s);
      if i.None? then Decoded([], Eof)
      else
        var size := LineSize(s[..i.value]);
        if size.None? then Decoded([], BadSize)
        else if size.value == 0 then Decoded([], Eof)
        else Decode(Data(size.value), s[i.value + 2..])
    case Data(n) =>
      if n == 0 then Decode(DataCrlf, s)
      else if |s| < n then Decoded(s, EofMidChunk)
      else Prepend(s[..n], Decode(DataCrlf, s[n..]))
    case DataCrlf =>
      if |s| < 2 then Decoded([], EofAfterChunk)
      else if s[..2] != CRLF then Decoded([], MissingCrlf)
      else Decode(SizeLine, s[2..])
  }

  lemma ShortDataSplits(n: nat, s: bytes, k: nat)
    requires 0 < k <= |s| < n
    ensures Decode(Data(n), s) == Prepend(s[..k], Decode(Data(n - k), s[k..]))
  {
    assert Decode(Data(n), s) == Decoded(s, EofMidChunk);
    assert Decode(Data(n - k), s[k..]) == Decoded(s[k..], EofMidChunk);
    hide Decode;
    assert s == s[..k] + s[k..];
  }

  lemma LongData(n: nat, s: bytes)
    requires 0 < n <= |s|
    ensures Decode(Data(n), s) == Prepend(s[..n], Decode(DataCrlf, s[n..]))
  {
  }

  lemma CutTwice(s: bytes, k: nat, n: nat)
    requires k <= n <= |s|
    ensures s[k..][n - k..] == s[n..] && s[..n] == s[..k] + s[k..][..n - k]
  {
  }

  lemma LongDataSplits(n: nat, s: bytes, k: nat)
    requires 0 < k < n <= |s|
    ensures Decode(Data(n), s) == Prepend(s[..k], Decode(Data(n - k), s[k..]))
  {
    hide *;
    LongData(n, s);
    LongData(n - k, s[k..]);
    CutTwice(s, k, n);
    PrependTwice(s[..k], s[k..][..n - k], Decode(DataCrlf, s[n..]));
  }

  /** A chunk may be handed over in any two pieces. */
  lemma DataSplits(n: nat, s: bytes, k: nat)
    requires 0 < k <= n && k <= |s|
    ensures Decode(Data(n), s) == Prepend(s[..k], Decode(Data(n - k), s[k..]))
  {
    if |s| < n {
      ShortDataSplits(n, s, k);
    } else if k < n {
      LongDataSplits(n, s, k);
    }
  }

  /** Data that is handed over is the first part of what the bytes mean. */
  lemma DataTaken(n: nat, data: bytes, rest: bytes)
    requires 0 < |data| <= n
    ensures Decode(Data(n), data + rest) == Prepend(data, Decode(Data(n - |data|), rest))
  {
    hide Decode, Prepend;
    DataSplits(n, data + rest, |data|);
    assert (data + rest)[..|data|] == data && (data + rest)[|data|..] == rest;
  }

  lemma NoDataLeft(n: nat)
    requires n > 0
    ensures Decode(Data(n), []) == Decoded([], EofMidChunk)
  {
  }

  /** What follows the data of a chunk: its own CRLF, and then the next size line. */
  lemma ChunkEnds(s: bytes)
    ensures Decode(Data(0), s) == Decode(DataCrlf, s)
    ensures |s| < 2 ==> Decode(DataCrlf, s) == Decoded([], EofAfterChunk)
    ensures |s| >= 2 && s[..2] != CRLF ==> Decode(DataCrlf, s) == Decoded([], MissingCrlf)
    ensures |s| >= 2 && s[..2] == CRLF ==> Decode(DataCrlf, s) == Decode(SizeLine, s[2..])
  {
  }

  lemma NoLineLeft(s: bytes)
    requires FindCrlf(s).None?
    ensures Decode(SizeLine, s) == Decoded([], Eof)
  {
  }

  /** Two bytes that are already buffered decide whether the chunk ends well. */
  lemma CrlfDecides(s: bytes, t: bytes)
    requires |s| >= 2
    ensures Decode(DataCrlf, s + t) == if s[..2] == CRLF then Decode(SizeLine, s[2..] + t) else Decoded([], MissingCrlf)
  {
    ChunkEnds(s + t);
    hide Decode;
    assert (s + t)[..2] == s[..2] && (s + t)[2..] == s[2..] + t;
  }

  /** A size line that is already buffered decides the next step. */
  lemma LineDecides(s: bytes, t: bytes, i: nat)
    requires FindCrlf(s) == Some(i)
    ensures Decode(SizeLine, s + t) ==
            var size := LineSize(s[..i]);
            if size.None? then Decoded([], BadSize)
            else if size.value == 0 then Decoded([], Eof)
            else Decode(Data(size.value), s[i + 2..] + t)
  {
    hide LineSize;
    CrlfStays(s, t);
    assert (s + t)[..i] == s[..i];
    assert (s + t)[i + 2..] == s[i + 2..] + t;
  }

  // ---------------------------------------------------------------- the machine

  datatype InnerRead = Got(data: bytes) | InnerPending | InnerError

  /** The stream under the decoder. How much one read delivers, when it is not
      ready and when it fails are up to the environment. */
  class Source {
    var rest: bytes
    ghost var held: nat  // polls answered with "not ready" or an error

    constructor (input: bytes)
      ensures rest == input && held == 0
    {
      rest := input;
      held := 0;
    }

    method PollRead(max: nat) returns (r: InnerRead)
      modifies this
      ensures r.Got? ==> |r.data| <= max && old(rest) == r.data + rest
      ensures r.Got? && r.data == [] ==> old(rest) == [] || max == 0
      ensures !r.Got? ==> rest == old(rest)
      ensures held == old(held) + if r.Got? then 0 else 1
    {
      if * {
        held := held + 1;
        return InnerPending;
      }
      if * {
        held := held + 1;
        return InnerError;
      }
      var n: nat := 0;
      if rest != [] && max > 0 {
        n :| 0 < n <= max && n <= |rest|;
      }
      r := Got(rest[..n]);
      rest := rest[n..];
    }
  }

  datatype ReadResult = Ready(data: bytes) | Pending | Failed(end: End) | SourceFailed

  datatype ChunkState = AtSizeLine | AtData | AtDataCrlf

  class Decoder {
    const inner: Source
    var leftover: bytes
    var chunkRemaining: nat
    var state: ChunkState
    var eof: bool

    constructor (inner: Source, leftover: bytes)
      ensures this.inner == inner && Remaining() == Decode(SizeLine, leftover + inner.rest)
    {
      this.inner := inner;
      this.leftover := leftover;
      chunkRemaining := 0;
      state := AtSizeLine;
      eof := false;
    }

    function CurrentPhase(): Phase
      reads this
    {
      match state
      case AtSizeLine => SizeLine
      case AtData => Data(chunkRemaining)
      case AtDataCrlf => DataCrlf
    }

    /** Everything a caller may still get from this decoder. */
    ghost function Remaining(): Decoded
      reads this, inner
    {
      if eof then Decoded([], Eof) else Decode(CurrentPhase(), leftover + inner.rest)
    }

    /** There is less to look at than there was, or the same but less of it unread. */
    predicate Shrank(leftover': bytes, rest': bytes)
      reads this, inner
    {
      || |leftover| + |inner.rest| < |leftover'| + |rest'|
      || (|leftover| + |inner.rest| == |leftover'| + |rest'| && |inner.rest| < |rest'|)
    }

    /** Read more bytes behind the ones already buffered. */
    method Fill(max: nat) returns (got: InnerRead)
      requires max > 0
      modifies this`leftover, inner
      ensures leftover + inner.rest == old(leftover + inner.rest)
      ensures got.Got? && got.data != [] ==> |inner.rest| < old(|inner.rest|)
      ensures got.Got? && got.data == [] ==> leftover == old(leftover) && inner.rest == []
      ensures inner.held == old(inner.held) + if got.Got? then 0 else 1
    {
      got := inner.PollRead(max);
      if got.Got? {
        assert leftover + (got.data + inner.rest) == (leftover + got.data) + inner.rest;
        leftover := leftover + got.data;
      }
    }

    /** Cut the size line off the buffer; a positive size opens a chunk. */
    method TakeLine(idx: nat) returns (size: Option<nat>)
      requires !eof && state == AtSizeLine && FindCrlf(leftover) == Some(idx)
      modifies this
      ensures !eof && |leftover| < old(|leftover|)
      ensures size.None? ==> old(Remaining()) == Decoded([], BadSize)
      ensures size == Some(0) ==> old(Remaining()) == Decoded([], Eof)
      ensures size.Some? && size.value > 0 ==> Remaining() == old(Remaining())
    {
      hide LineSize, FindCrlf;
      LineDecides(leftover, inner.rest, idx);
      size := LineSize(leftover[..idx]);
      leftover := leftover[idx + 2..];
      if size.Some? && size.value > 0 {
        chunkRemaining := size.value;
        state := AtData;
      }
    }

    method TakeBuffered(take: nat) returns (data: bytes)
      requires !eof && state == AtData && 0 < take <= chunkRemaining && take <= |leftover|
      modifies this
      ensures |data| == take && old(Remaining()) == Prepend(data, Remaining())
    {
      hide Decode, Prepend;
      data := leftover[..take];
      DataTaken(chunkRemaining, data, leftover[take..] + inner.rest);
      assert leftover + inner.rest == data + (leftover[take..] + inner.rest);
      leftover := leftover[take..];
      chunkRemaining := chunkRemaining - take;
    }

    method ReadThrough(want: nat) returns (r: ReadResult)
      requires !eof && state == AtData && leftover == [] && 0 < want <= chunkRemaining
      modifies this, inner
      ensures r.Ready? ==> 0 < |r.data| <= want && old(Remaining()) == Prepend(r.data, Remaining())
      ensures r.Failed? ==> old(Remaining()) == Decoded([], r.end) && r.end == EofMidChunk
      ensures r.Pending? || r.SourceFailed? ==> Remaining() == old(Remaining())
      ensures inner.held == old(inner.held) + if r.Pending? || r.SourceFailed? then 1 else 0
    {
      NoDataLeft(chunkRemaining);
      hide Decode, Prepend;
      assert leftover + inner.rest == inner.rest;
      var got := inner.PollRead(want);
      assert leftover + inner.rest == inner.rest;
      match got
      case InnerPending => return Pending;
      case InnerError => return SourceFailed;
      case Got(data) =>
        if data == [] {
          return Failed(EofMidChunk);
        }
        DataTaken(chunkRemaining, data, inner.rest);
        chunkRemaining := chunkRemaining - |data|;
        r := Ready(data);
    }

    /** The data branch of a poll: buffered bytes first, then the stream itself. */
    method PollData(room: nat) returns (r: ReadResult)
      requires !eof && state == AtData && chunkRemaining > 0
      modifies this, inner
      ensures r.Ready? ==> |r.data| <= room && old(Remaining()) == Prepend(r.data, Remaining())
      ensures r.Ready? && r.data == [] ==> room == 0
      ensures r.Failed? ==> old(Remaining()) == Decoded([], r.end) && r.end == EofMidChunk
      ensures r.Pending? || r.SourceFailed? ==> Remaining() == old(Remaining())
      ensures inner.held == old(inner.held) + if r.Pending? || r.SourceFailed? then 1 else 0
    {
      if leftover != [] {
        var take := Min(Min(chunkRemaining, room), |leftover|);
        if take > 0 {
          var data := TakeBuffered(take);
          return Ready(data);
        }
      }
      var want := Min(chunkRemaining, room);
      if want == 0 {
        return Ready([]);
      }
      r := ReadThrough(want);
    }

    /** The size line branch of a poll; `None` when the loop goes on. */
    method PollSizeLine() returns (r: Option<ReadResult>)
      requires !eof && state == AtSizeLine
      modifies this, inner
      ensures r.None? ==> !eof && inner.held == old(inner.held) && Remaining() == old(Remaining())
      ensures r.None? ==> Shrank(old(leftover), old(inner.rest))
      ensures r.Some? && r.value.Ready? ==> r.value.data == [] && eof && old(Remaining()) == Decoded([], Eof)
      ensures r.Some? && r.value.Failed? ==> old(Remaining()) == Decoded([], r.value.end) && r.value.end == BadSize
      ensures r.Some? && (r.value.Pending? || r.value.SourceFailed?) ==> Remaining() == old(Remaining())
      ensures r.Some? ==> inner.held == old(inner.held) + if r.value.Pending? || r.value.SourceFailed? then 1 else 0
    {
      hide Decode, FindCrlf;
      var idx := FindCrlf(leftover);
      if idx.Some? {
        var size := TakeLine(idx.value);
        if size.None? {
          return Some(Failed(BadSize));
        }
        if size.value == 0 {
          eof := true;
          return Some(Ready([]));
        }
        return None;
      }
      var got := Fill(128);
      match got
      case InnerPending => return Some(Pending);
      case InnerError => return Some(SourceFailed);
      case Got(data) =>
        if data == [] {
          assert leftover + inner.rest == leftover;
          NoLineLeft(leftover);
          eof := true;
          return Some(Ready([]));
        }
        return None;
    }

    /** The branch that looks for the CRLF behind the data. */
    method PollDataCrlf() returns (r: Option<ReadResult>)
      requires !eof && state == AtDataCrlf
      modifies this, inner
      ensures r.None? ==> !eof && inner.held == old(inner.held) && Remaining() == old(Remaining())
      ensures r.None? ==> Shrank(old(leftover), old(inner.rest))
      ensures r.Some? ==> !r.value.Ready?
      ensures r.Some? && r.value.Failed? ==> old(Remaining()) == Decoded([], r.value.end) && r.value.end != Eof
      ensures r.Some? && !r.value.Failed? ==> Remaining() == old(Remaining())
      ensures r.Some? ==> inner.held == old(inner.held) + if r.value.Pending? || r.value.SourceFailed? then 1 else 0
    {
      hide Decode;
      if |leftover| < 2 {
        var got := Fill(2);
        match got
        case InnerPending => return Some(Pending);
        case InnerError => return Some(SourceFailed);
        case Got(data) =>
          if data == [] {
            ChunkEnds(leftover + inner.rest);
            return Some(Failed(EofAfterChunk));
          }
          return None;
      }
      CrlfDecides(leftover, inner.rest);
      if leftover[..2] != CRLF {
        return Some(Failed(MissingCrlf));
      }
      leftover := leftover[2..];
      state := AtSizeLine;
      return None;
    }

    /** One poll into a buffer with room for `room` bytes. */
    method PollRead(room: nat) returns (r: ReadResult)
      modifies this, inner
      ensures r.Ready? ==> |r.data| <= room && old(Remaining()) == Prepend(r.data, Remaining())
      ensures r.Ready? && r.data == [] && room > 0 ==> eof
      ensures r.Failed? ==> old(Remaining()) == Decoded([], r.end) && r.end != Eof
      ensures r.Pending? || r.SourceFailed? ==> Remaining() == old(Remaining())
      ensures inner.held == old(inner.held) + if r.Pending? || r.SourceFailed? then 1 else 0
    {
      if eof {
        return Ready([]);
      }
      hide Decode;
      while true
        invariant !eof && inner.held == old(inner.held)
        invariant Remaining() == old(Remaining())
        decreases |leftover| + |inner.rest|, |inner.rest|, Rank(CurrentPhase())
      {
        var answer: Option<ReadResult> := None;
        match state {
          case AtSizeLine =>
            answer := PollSizeLine();
          case AtData =>
            if chunkRemaining == 0 {
              ChunkEnds(leftover + inner.rest);
              state := AtDataCrlf;
            } else {
              r := PollData(room);
              return;
            }
          case AtDataCrlf =>
            answer := PollDataCrlf();
        }
        if answer.Some? {
          return answer.value;
        }
      }
    }
  }

  function Roomless(rooms: seq<nat>): nat {
    if rooms == [] then 0
    else Roomless(rooms[..|rooms| - 1]) + if rooms[|rooms| - 1] == 0 then 1 else 0
  }

  /** Any sequence of polls. Whatever the buffer sizes and whatever the environment
      does, the bytes handed over and the way the stream ends are those of `Decode`;
      while the stream has not ended, every poll with room that the source did not
      hold up has handed over at least one byte. */
  method ReadAll(d: Decoder, rooms: seq<nat>) returns (out: bytes, end: Option<End>)
    modifies d, d.inner
    ensures end.Some? ==> old(d.Remaining()) == Decoded(out, end.value)
    ensures end.None? ==> old(d.Remaining()) == Prepend(out, d.Remaining())
    ensures end.None? ==> |rooms| <= |out| + (d.inner.held - old(d.inner.held)) + Roomless(rooms)
  {
    out, end := [], None;
    assert rooms[..0] == [];
    for i := 0 to |rooms|
      invariant old(d.Remaining()) == Prepend(out, d.Remaining())
      invariant i <= |out| + (d.inner.held - old(d.inner.held)) + Roomless(rooms[..i])
    {
      assert rooms[..i + 1][..i] == rooms[..i];
      var r := d.PollRead(rooms[i]);
      match r
      case Ready(data) =>
        if data == [] && rooms[i] > 0 {
          assert out + [] == out;
          return out, Some(Eof);
        }
        PrependTwice(out, data, d.Remaining());
        out := out + data;
      case Failed(e) =>
        assert out + [] == out;
        return out, Some(e);
      case _ =>
    }
    assert rooms[..|rooms|] == rooms;
  }
}
