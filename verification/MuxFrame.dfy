/** Mux frames: metadata with a length prefix, and an optional chunk of data. */
module MuxFrame {
  import opened Bytes
  import opened ByteStream
  import opened Endpoints
  import Vless

  const STATUS_NEW: byte := 1
  const STATUS_KEEP: byte := 2
  const STATUS_END: byte := 3
  const STATUS_KEEP_ALIVE: byte := 4
  const OPTION_ERROR: byte := 2
  const NETWORK_TCP: byte := 1
  const NETWORK_UDP: byte := 2
  const MAX_META_LEN: nat := 512
  const MAX_CHUNK_SIZE: nat := 8192
  const GLOBAL_ID_LEN: nat := 8

  datatype MuxError =
    | TooShort
    | MetaTooLarge(size: nat)
    | ChunkTooLarge(size: nat)
    | Address(address: Vless.ParseError)

  datatype Meta = Meta(
    sessionId: nat, status: byte, option: byte,
    network: Option<byte>, target: Option<Endpoint>, globalId: Option<bytes>)

  datatype Frame = Frame(meta: Meta, payload: Option<bytes>)

  predicate HasData(m: Meta) {
    m.option % 2 == 1
  }

  /** A value the fields can hold. */
  predicate IsMeta(m: Meta) {
    && m.sessionId < 0x1_0000
    && (m.target.Some? ==> IsEndpoint(m.target.value))
    && (m.globalId.Some? ==> |m.globalId.value| == GLOBAL_ID_LEN)
  }

  // ---------------------------------------------------------------- metadata

  predicate NeedsTarget(status: byte, network: byte) {
    || (status == STATUS_NEW && (network == NETWORK_TCP || network == NETWORK_UDP))
    || (status == STATUS_KEEP && network == NETWORK_UDP)
  }

  /** The part of the metadata after its four fixed bytes. */
  function ParseTarget(m: Meta, tail: bytes): Result<Meta, MuxError> {
    if tail == [] || !NeedsTarget(m.status, tail[0]) then Ok(m)
    else
      match Vless.ParsePortAddress(tail[1..])
      case Err(e) => Err(Address(e))
      case Ok((target, n)) =>
        var hasId := m.status == STATUS_NEW && tail[0] == NETWORK_UDP && |tail| >= 1 + n + GLOBAL_ID_LEN;
        Ok(m.(network := Some(tail[0]), target := Some(target),
              globalId := if hasId then Some(tail[1 + n..1 + n + GLOBAL_ID_LEN]) else None))
  }

  function ParseMeta(body: bytes): Result<Meta, MuxError> {
    if |body| < 4 then Err(TooShort)
    else ParseTarget(Meta(Word(body[0], body[1]), body[2], body[3], None, None, None), body[4..])
  }

  /** Whether the encoder writes the target. */
  predicate CarriesTarget(m: Meta) {
    && m.network.Some? && m.target.Some?
    && (m.status == STATUS_NEW || (m.status == STATUS_KEEP && m.network.value == NETWORK_UDP))
  }

  predicate CarriesId(m: Meta) {
    CarriesTarget(m) && m.status == STATUS_NEW && m.network.value == NETWORK_UDP && m.globalId.Some?
  }

  function EncodeTail(m: Meta): bytes
    requires IsMeta(m)
  {
    if !CarriesTarget(m) then []
    else [m.network.value] + Vless.EncodePortAddress(m.target.value) + if CarriesId(m) then m.globalId.value else []
  }

  function EncodeBody(m: Meta): bytes
    requires IsMeta(m)
  {
    WordBytes(m.sessionId) + [m.status, m.option] + EncodeTail(m)
  }

  function EncodeMeta(m: Meta): bytes
    requires IsMeta(m)
  {
    WordBytes(|EncodeBody(m)| % 0x1_0000) + EncodeBody(m)
  }

  /** Metadata whose optional parts are exactly those its status carries. */
  predicate WellFormed(m: Meta) {
    && IsMeta(m)
    && (m.network.Some? <==> m.target.Some?)
    && (m.network.Some? ==> NeedsTarget(m.status, m.network.value) && Encodable(m.target.value))
    && (m.globalId.Some? ==> m.status == STATUS_NEW && m.network == Some(NETWORK_UDP))
  }

  lemma TailSplits(network: byte, address: bytes, id: bytes)
    ensures var t := [network] + address + id;
            t[0] == network && t[1..] == address + id && t[1 + |address|..] == id && |t| == 1 + |address| + |id|
  {
  }

  lemma AddressGate(e: Endpoint, t: bytes)
    requires IsEndpoint(e)
    ensures var a, p := Vless.EncodePortAddress(e), Vless.ParsePortAddress(Vless.EncodePortAddress(e) + t);
            && (Encodable(e) ==> p == Ok((e, |a|)))
            && (p.Ok? && p.value.0 == e ==> Encodable(e))
  {
    var a := Vless.EncodePortAddress(e);
    Vless.EndpointReadsBack(e, t);
    if Vless.ParsePortAddress(a + t).Ok? {
      Vless.EndpointIsCanonical(a + t);
    }
    hide Vless.EncodePortAddress, Vless.ParsePortAddress, Encodable;
  }

  /** What a target that is looked for is read as. */
  lemma TailParses(bare: Meta, network: byte, address: bytes, id: bytes)
    requires NeedsTarget(bare.status, network)
    ensures var r, p := ParseTarget(bare, [network] + address + id), Vless.ParsePortAddress(address + id);
            && (r.Ok? <==> p.Ok?)
            && (p.Ok? ==> r.value.target == Some(p.value.0))
            && (p.Ok? && p.value.1 == |address| ==>
                  var hasId := bare.status == STATUS_NEW && network == NETWORK_UDP && |id| >= GLOBAL_ID_LEN;
                  r.value == bare.(network := Some(network), target := Some(p.value.0),
                                   globalId := if hasId then Some(id[..GLOBAL_ID_LEN]) else None))
  {
    TailSplits(network, address, id);
    hide Vless.ParsePortAddress;
    var t, n := [network] + address + id, 1 + |address|;
    if |id| >= GLOBAL_ID_LEN {
      assert t[n..n + GLOBAL_ID_LEN] == t[n..][..GLOBAL_ID_LEN];
    }
  }

  lemma TailReadsBack(m: Meta)
    requires IsMeta(m)
    ensures var bare := m.(network := None, target := None, globalId := None);
            ParseTarget(bare, EncodeTail(m)) == Ok(m) <==> WellFormed(m)
  {
    var bare := m.(network := None, target := None, globalId := None);
    if CarriesTarget(m) {
      var e, id := m.target.value, if CarriesId(m) then m.globalId.value else [];
      AddressGate(e, id);
      hide Vless.EncodePortAddress, Vless.ParsePortAddress, Encodable, IsEndpoint;
      if NeedsTarget(m.status, m.network.value) {
        TailParses(bare, m.network.value, Vless.EncodePortAddress(e), id);
        assert CarriesId(m) ==> id[..GLOBAL_ID_LEN] == id;
        hide ParseTarget;
      }
    }
  }

  lemma BodySplits(m: Meta)
    requires IsMeta(m)
    ensures var b := EncodeBody(m);
            |b| == 4 + |EncodeTail(m)| && Word(b[0], b[1]) == m.sessionId && b[2] == m.status && b[3] == m.option
            && b[4..] == EncodeTail(m)
  {
    hide EncodeTail;
  }

  /** Metadata reads back exactly when it is well formed. */
  lemma MetaReadsBack(m: Meta)
    requires IsMeta(m)
    ensures ParseMeta(EncodeBody(m)) == Ok(m) <==> WellFormed(m)
  {
    BodySplits(m);
    TailReadsBack(m);
    hide ParseTarget, EncodeTail, EncodeBody, WellFormed;
  }

  /** Encoded metadata stays far below the limit the reader enforces. */
  lemma MetaFits(m: Meta)
    requires WellFormed(m)
    ensures 4 <= |EncodeBody(m)| <= 272 < MAX_META_LEN
  {
    hide Utf8;
    BodySplits(m);
    if m.target.Some? {
      Vless.EndpointSize(m.target.value);
    }
  }

  // ---------------------------------------------------------------- frames

  /** The chunk at the front of `s`. */
  function ParseChunk(s: bytes): Result<(bytes, nat), MuxError> {
    if |s| < 2 then Err(TooShort)
    else
      var size := Word(s[0], s[1]);
      if size > MAX_CHUNK_SIZE then Err(ChunkTooLarge(size))
      else if |s| < 2 + size then Err(TooShort)
      else Ok((s[2..2 + size], 2 + size))
  }

  function ParseFrame(s: bytes): (r: Result<(Frame, nat), MuxError>)
    ensures r.Ok? ==> 2 <= r.value.1 <= |s|
  {
    if |s| < 2 then Err(TooShort)
    else
      var size := Word(s[0], s[1]);
      if size > MAX_META_LEN then Err(MetaTooLarge(size))
      else if |s| < 2 + size then Err(TooShort)
      else
        match ParseMeta(s[2..2 + size])
        case Err(e) => Err(e)
        case Ok(meta) =>
          if !HasData(meta) then Ok((Frame(meta, None), 2 + size))
          else
            match ParseChunk(s[2 + size..])
            case Err(e) => Err(e)
            case Ok((data, n)) => Ok((Frame(meta, Some(data)), 2 + size + n))
  }

  function EncodeChunk(data: bytes): bytes
    requires |data| <= MAX_CHUNK_SIZE
  {
    WordBytes(|data|) + data
  }

  /** A frame the encoders produce. */
  predicate IsFrame(f: Frame) {
    && WellFormed(f.meta)
    && (f.payload.Some? <==> HasData(f.meta))
    && (f.payload.Some? ==> |f.payload.value| <= MAX_CHUNK_SIZE)
  }

  function EncodeFrame(f: Frame): bytes
    requires IsFrame(f)
  {
    EncodeMeta(f.meta) + if f.payload.Some? then EncodeChunk(f.payload.value) else []
  }

  /** The encoder for frames with data, error case included. */
  function EncodeDataFrame(m: Meta, payload: bytes): Result<bytes, MuxError>
    requires IsMeta(m)
  {
    if |payload| > MAX_CHUNK_SIZE then Err(ChunkTooLarge(|payload|))
    else Ok(EncodeMeta(m) + EncodeChunk(payload))
  }

  function EndMeta(sessionId: nat, withError: bool): Meta {
    Meta(sessionId, STATUS_END, if withError then OPTION_ERROR else 0, None, None, None)
  }

  function EncodeEndFrame(sessionId: nat, withError: bool): bytes
    requires sessionId < 0x1_0000
  {
    EncodeMeta(EndMeta(sessionId, withError))
  }

  lemma ChunkReadsBack(data: bytes, t: bytes)
    requires |data| <= MAX_CHUNK_SIZE
    ensures ParseChunk(EncodeChunk(data) + t) == Ok((data, |EncodeChunk(data)|))
  {
    var s := EncodeChunk(data) + t;
    assert s[2..2 + |data|] == data;
  }

  lemma MetaLayout(m: Meta, t: bytes)
    requires WellFormed(m)
    ensures var s, size := EncodeMeta(m) + t, |EncodeBody(m)|;
            |EncodeMeta(m)| == 2 + size && size <= MAX_META_LEN && Word(s[0], s[1]) == size
            && s[2..2 + size] == EncodeBody(m) && s[2 + size..] == t
  {
    MetaFits(m);
    hide EncodeBody, WellFormed;
  }

  /** Behind well-formed metadata, a frame is what the chunk makes it. */
  lemma MetaThenChunk(m: Meta, t: bytes)
    requires WellFormed(m)
    ensures ParseFrame(EncodeMeta(m) + t) ==
            if !HasData(m) then Ok((Frame(m, None), |EncodeMeta(m)|))
            else
              match ParseChunk(t)
              case Err(e) => Err(e)
              case Ok((data, n)) => Ok((Frame(m, Some(data)), |EncodeMeta(m)| + n))
  {
    MetaReadsBack(m);
    MetaLayout(m, t);
    hide EncodeMeta, EncodeBody, ParseMeta, ParseChunk, WellFormed;
  }

  lemma DataReadsBack(m: Meta, data: bytes, t: bytes)
    requires WellFormed(m) && HasData(m) && |data| <= MAX_CHUNK_SIZE
    ensures var s := EncodeMeta(m) + EncodeChunk(data);
            ParseFrame(s + t) == Ok((Frame(m, Some(data)), |s|))
  {
    hide ParseFrame, EncodeMeta, ParseChunk, EncodeChunk, IsEndpoint, Encodable, NeedsTarget, HasData;
    var head, chunk := EncodeMeta(m), EncodeChunk(data);
    ChunkReadsBack(data, t);
    MetaThenChunk(m, chunk + t);
    assert (head + chunk) + t == head + (chunk + t);
  }

  /** Self-delimiting: a frame reads back from the front of any stream, with its length. */
  lemma FrameReadsBack(f: Frame, t: bytes)
    requires IsFrame(f)
    ensures ParseFrame(EncodeFrame(f) + t) == Ok((f, |EncodeFrame(f)|))
  {
    hide ParseFrame, EncodeMeta, EncodeChunk, IsEndpoint, Encodable, NeedsTarget, HasData;
    if f.payload.Some? {
      DataReadsBack(f.meta, f.payload.value, t);
    } else {
      MetaThenChunk(f.meta, t);
      assert EncodeMeta(f.meta) + [] == EncodeMeta(f.meta);
    }
  }

  /** A data frame reads back, or is refused because its payload is too large. */
  lemma DataFrameReadsBack(m: Meta, payload: bytes, t: bytes)
    requires WellFormed(m) && HasData(m)
    ensures match EncodeDataFrame(m, payload)
            case Ok(s) => |payload| <= MAX_CHUNK_SIZE && ParseFrame(s + t) == Ok((Frame(m, Some(payload)), |s|))
            case Err(e) => |payload| > MAX_CHUNK_SIZE && e == ChunkTooLarge(|payload|)
  {
    hide ParseFrame, EncodeMeta, EncodeChunk, IsEndpoint, Encodable, NeedsTarget, HasData;
    if |payload| <= MAX_CHUNK_SIZE {
      DataReadsBack(m, payload, t);
    }
  }

  /** Bit 0 of the options announces data. */
  lemma DataBit(m: Meta, high: nat, low: nat)
    requires low < 2 && m.option as nat == 2 * high + low
    ensures HasData(m) <==> low == 1
  {
  }

  /** A `New` frame with data, byte by byte: the length of the metadata, the session, status,
      options and network, then the port, the address type and the address, then the length of
      the data and the data. Words are big-endian. */
  lemma NewFrameLayout(idHi: byte, idLo: byte, network: byte, octets: bytes, portHi: byte, portLo: byte, data: bytes)
    requires |octets| == 4 && |data| <= MAX_CHUNK_SIZE
    ensures var target := Ipv4(octets, 256 * portHi as nat + portLo as nat);
            var m := Meta(256 * idHi as nat + idLo as nat, 1, 1, Some(network), Some(target), None);
            EncodeDataFrame(m, data) ==
            Ok([0, 12] + [idHi, idLo, 1, 1, network] + [portHi, portLo, 1] + octets + [|data| / 256, |data| % 256] + data)
  {
    var target := Ipv4(octets, 256 * portHi as nat + portLo as nat);
    var m := Meta(256 * idHi as nat + idLo as nat, 1, 1, Some(network), Some(target), None);
    WordsAreBigEndian(idHi, idLo);
    WordsAreBigEndian(portHi, portLo);
    WordsAreBigEndian(0, 12);
    WordsAreBigEndian(|data| / 256, |data| % 256);
    assert Vless.EncodePortAddress(target) == [portHi, portLo, 1] + octets;
    assert EncodeTail(m) == [network] + ([portHi, portLo, 1] + octets) + [];
    assert EncodeBody(m) == [idHi, idLo, 1, 1, network] + [portHi, portLo, 1] + octets;
    var body, size := EncodeBody(m), [|data| / 256, |data| % 256];
    assert |body| == 12 && |body| % 0x1_0000 == 12;
    assert EncodeMeta(m) == [0, 12] + body;
    assert EncodeChunk(data) == size + data;
    hide EncodeBody, EncodeMeta, EncodeChunk, WordBytes;
    assert [0, 12] + body == [0, 12] + [idHi, idLo, 1, 1, network] + [portHi, portLo, 1] + octets;
    assert ([0, 12] + body) + (size + data) == [0, 12] + body + size + data;
  }

  /** Metadata without an address, byte by byte: every status but `New`, and `Keep` for datagrams,
      takes four bytes whatever else is known of the session. */
  lemma ShortMetaLayout(m: Meta, idHi: byte, idLo: byte)
    requires IsMeta(m) && m.sessionId == 256 * idHi as nat + idLo as nat
    requires m.status != 1 && (m.status == 2 ==> m.network != Some(2))
    ensures EncodeMeta(m) == [0, 4, idHi, idLo, m.status, m.option]
  {
    WordsAreBigEndian(idHi, idLo);
    WordsAreBigEndian(0, 4);
    assert EncodeTail(m) == [];
    hide EncodeTail, WordBytes;
    var body := [idHi, idLo, m.status, m.option];
    assert EncodeBody(m) == body + [] && |body + []| % 0x1_0000 == 4;
  }

  /** An `End`: status 3, and option 2 when it tells of an error. */
  lemma EndFrameLayout(idHi: byte, idLo: byte, withError: bool)
    ensures EncodeEndFrame(256 * idHi as nat + idLo as nat, withError) == [0, 4, idHi, idLo, 3, if withError then 2 else 0]
  {
    ShortMetaLayout(EndMeta(256 * idHi as nat + idLo as nat, withError), idHi, idLo);
    hide EncodeMeta;
  }

  lemma EndFrameReadsBack(sessionId: nat, withError: bool, t: bytes)
    requires sessionId < 0x1_0000
    ensures var s := EncodeEndFrame(sessionId, withError);
            ParseFrame(s + t) == Ok((Frame(EndMeta(sessionId, withError), None), |s|))
  {
    MetaThenChunk(EndMeta(sessionId, withError), t);
    hide ParseFrame, EncodeMeta;
  }

  lemma ChunkPrefix(data: bytes, k: nat)
    requires |data| <= MAX_CHUNK_SIZE && k < |EncodeChunk(data)|
    ensures ParseChunk(EncodeChunk(data)[..k]) == Err(TooShort)
  {
  }

  lemma MetaPrefix(m: Meta, t: bytes, k: nat)
    requires WellFormed(m) && k < |EncodeMeta(m)|
    ensures ParseFrame((EncodeMeta(m) + t)[..k]) == Err(TooShort)
  {
    MetaLayout(m, t);
    hide EncodeMeta, EncodeBody, WellFormed, ParseMeta, ParseChunk;
  }

  /** Every strict prefix of a frame is too short. */
  lemma PrefixTooShort(f: Frame, k: nat)
    requires IsFrame(f) && k < |EncodeFrame(f)|
    ensures ParseFrame(EncodeFrame(f)[..k]) == Err(TooShort)
  {
    assert IsMeta(f.meta);
    hide ParseFrame, EncodeMeta, ParseChunk, EncodeChunk, WellFormed, IsMeta;
    var head := EncodeMeta(f.meta);
    if k < |head| {
      MetaPrefix(f.meta, if f.payload.Some? then EncodeChunk(f.payload.value) else [], k);
    } else {
      var chunk := EncodeChunk(f.payload.value);
      ChunkPrefix(f.payload.value, k - |head|);
      MetaThenChunk(f.meta, chunk[..k - |head|]);
      assert (head + chunk)[..k] == head + chunk[..k - |head|];
    }
  }

  lemma ChunkStands(s: bytes, t: bytes)
    requires ParseChunk(s).Ok? || ParseChunk(s).error != TooShort
    ensures ParseChunk(s + t) == ParseChunk(s)
  {
    var size := Word(s[0], s[1]);
    if size <= MAX_CHUNK_SIZE {
      assert (s + t)[2..2 + size] == s[2..2 + size];
    }
  }

  /** Bytes that follow never change a verdict other than "too short". */
  lemma VerdictStands(s: bytes, t: bytes)
    requires ParseFrame(s).Ok? || ParseFrame(s).error != TooShort
    ensures ParseFrame(s + t) == ParseFrame(s)
  {
    hide ParseMeta, ParseChunk;
    var size, u := Word(s[0], s[1]), s + t;
    if size <= MAX_META_LEN {
      assert u[2..2 + size] == s[2..2 + size] && u[2 + size..] == s[2 + size..] + t;
      if ParseMeta(s[2..2 + size]).Ok? && HasData(ParseMeta(s[2..2 + size]).value) {
        ChunkStands(s[2 + size..], t);
      }
    }
  }

  // ---------------------------------------------------------------- streams of frames

  function EncodeAll(frames: seq<Frame>): bytes
    requires forall i :: 0 <= i < |frames| ==> IsFrame(frames[i])
  {
    if frames == [] then [] else EncodeFrame(frames[0]) + EncodeAll(frames[1..])
  }

  /** How a stream of frames ends: at a frame boundary (or one byte after it, which the
      reader takes for the same), or with a frame it cannot read. */
  datatype Ending = Clean | Broken

  function FramesOf(s: bytes): (seq<Frame>, Ending)
    decreases |s|
  {
    if |s| < 2 then ([], Clean)
    else
      match ParseFrame(s)
      case Err(_) => ([], Broken)
      case Ok((f, n)) =>
        var (rest, ending) := FramesOf(s[n..]);
        ([f] + rest, ending)
  }

  /** Any list of frames reads back from its encoding, in order, up to a clean end. */
  lemma {:induction false} FramesReadBack(frames: seq<Frame>)
    requires forall i :: 0 <= i < |frames| ==> IsFrame(frames[i])
    ensures FramesOf(EncodeAll(frames)) == (frames, Clean)
  {
    if frames != [] {
      var f, rest := frames[0], EncodeAll(frames[1..]);
      FramesReadBack(frames[1..]);
      FrameReadsBack(f, rest);
      hide EncodeFrame, ParseFrame, IsFrame;
      assert (EncodeFrame(f) + rest)[|EncodeFrame(f)|..] == rest;
      assert [f] + frames[1..] == frames;
    }
  }

  datatype ReadResult = GotFrame(frame: Frame) | EndOfStream | ReadError

  method ReadChunk(reader: Stream) returns (r: Option<bytes>)
    modifies reader`rest
    ensures var s := old(reader.rest);
            match ParseChunk(s)
            case Ok((data, n)) => r == Some(data) && n <= |s| && reader.rest == s[n..]
            case Err(_) => r == None
  {
    ghost var s := reader.rest;
    var len := reader.ReadExact(2);
    if len.None? {
      return None;
    }
    var chunkLen := Word(len.value[0], len.value[1]);
    if chunkLen > MAX_CHUNK_SIZE {
      return None;
    }
    assert chunkLen <= |reader.rest| ==> reader.rest[..chunkLen] == s[2..2 + chunkLen];
    r := reader.ReadExact(chunkLen);
  }

  /** Read one frame off a stream. It succeeds exactly when the pure parser does, on the
      same frame, having read exactly its bytes. */
  method ReadFrame(reader: Stream) returns (r: ReadResult)
    modifies reader`rest
    ensures var s := old(reader.rest);
            match ParseFrame(s)
            case Ok((f, n)) => r == GotFrame(f) && reader.rest == s[n..]
            case Err(_) => r == if |s| < 2 then EndOfStream else ReadError
  {
    hide ParseMeta;
    ghost var s := reader.rest;
    var len := reader.ReadExact(2);
    if len.None? {
      return EndOfStream;
    }
    var metaLen := Word(len.value[0], len.value[1]);
    if metaLen > MAX_META_LEN {
      return ReadError;
    }
    var body := reader.ReadExact(metaLen);
    if body.None? {
      return ReadError;
    }
    assert body.value == s[2..2 + metaLen] && reader.rest == s[2 + metaLen..];
    var meta := ParseMeta(body.value);
    if meta.Err? {
      return ReadError;
    }
    if !HasData(meta.value) {
      return GotFrame(Frame(meta.value, None));
    }
    var data := ReadChunk(reader);
    if data.None? {
      return ReadError;
    }
    ghost var n := ParseChunk(s[2 + metaLen..]).value.1;
    assert s[2 + metaLen..][n..] == s[2 + metaLen + n..];
    r := GotFrame(Frame(meta.value, data));
  }

  /** Read frames until the stream ends or breaks: exactly those the bytes hold. */
  method ReadFrames(reader: Stream) returns (frames: seq<Frame>, ending: Ending)
    modifies reader`rest
    ensures (frames, ending) == FramesOf(old(reader.rest))
  {
    hide ParseFrame;
    frames := [];
    while true
      invariant FramesOf(old(reader.rest)).0 == frames + FramesOf(reader.rest).0
      invariant FramesOf(old(reader.rest)).1 == FramesOf(reader.rest).1
      decreases |reader.rest|
    {
      ghost var s := reader.rest;
      var r := ReadFrame(reader);
      match r
      case EndOfStream =>
        assert frames + [] == frames;
        return frames, Clean;
      case ReadError =>
        assert frames + [] == frames;
        return frames, Broken;
      case GotFrame(f) =>
        assert FramesOf(s).0 == [f] + FramesOf(reader.rest).0;
        assert frames + ([f] + FramesOf(reader.rest).0) == (frames + [f]) + FramesOf(reader.rest).0;
        frames := frames + [f];
    }
  }

  lemma MetaErrorsAreNotLimits(s: bytes, end: nat)
    ensures 2 <= end <= |s| ==>
              var r := ParseMeta(s[2..end]); r.Err? ==> r.error.TooShort? || r.error.Address?
  {
    hide Vless.ParsePortAddress;
  }

  /** The limits of a frame: its metadata have at most 512 bytes, its data 8192. */
  lemma LimitsExactly(s: bytes, n: nat)
    ensures ParseFrame(s) == Err(MetaTooLarge(n)) <==> |s| >= 2 && n == 256 * s[0] as nat + s[1] as nat && n > 512
    ensures ParseFrame(s) == Err(ChunkTooLarge(n)) <==>
            && |s| >= 2
            && var end: nat := 256 * s[0] as nat + s[1] as nat + 2;
               && end <= 514 && |s| >= end + 2 && ParseMeta(s[2..end]).Ok? && HasData(ParseMeta(s[2..end]).value)
               && n == 256 * s[end] as nat + s[end + 1] as nat && n > 8192
  {
    if |s| >= 2 {
      WordsAreBigEndian(s[0], s[1]);
      var end: nat := 256 * s[0] as nat + s[1] as nat + 2;
      MetaErrorsAreNotLimits(s, end);
      if |s| >= end + 2 {
        WordsAreBigEndian(s[end], s[end + 1]);
      }
    }
    hide ParseMeta, Word, HasData;
  }
}
