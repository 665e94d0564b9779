/** The packet-up uplink: numbered POSTs that may arrive in any order and more than once,
    put back in order by the server and read as one stream. */
module PacketUp {
  import opened Bytes
  import opened XhttpPath

  // ---------------------------------------------------------------- the reorder buffer

  datatype Buffer = Buffer(next: nat, pending: map<nat, bytes>)

  function Advanced(b: Buffer): Buffer {
    Buffer(b.next + 1, b.pending - {b.next})
  }

  /** Hand over the chunks that are next in line, for as long as there are any. */
  function Release(b: Buffer): (Buffer, seq<bytes>)
    decreases |b.pending|
  {
    if b.next !in b.pending then (b, [])
    else
      var (b', out) := Release(Advanced(b));
      (b', [b.pending[b.next]] + out)
  }

  function Pushed(b: Buffer, number: nat, payload: bytes): (Buffer, seq<bytes>) {
    if number < b.next then (b, []) else Release(b.(pending := b.pending[number := payload]))
  }

  /** Numbers below `next` are past; the buffer holds exactly the packets of `got` that
      are still to come, each with its payload. */
  ghost predicate Holding(b: Buffer, got: set<nat>, source: nat -> bytes) {
    && (forall s: nat :: s < b.next ==> s in got)
    && (forall s: nat :: s in b.pending <==> s in got && s >= b.next)
    && (forall s: nat :: s in b.pending ==> b.pending[s] == source(s))
  }

  /** Payloads `first` up to `end`, in order. */
  function Payloads(source: nat -> bytes, first: nat, end: nat): seq<bytes>
    decreases end
  {
    if first >= end then [] else Payloads(source, first, end - 1) + [source(end - 1)]
  }

  lemma {:induction false} PayloadsAppend(source: nat -> bytes, a: nat, b: nat, c: nat)
    requires a <= b <= c
    ensures Payloads(source, a, b) + Payloads(source, b, c) == Payloads(source, a, c)
    decreases c
  {
    if b < c {
      PayloadsAppend(source, a, b, c - 1);
    }
  }

  lemma {:induction false} PayloadsAt(source: nat -> bytes, end: nat, i: nat)
    requires i < end
    ensures |Payloads(source, 0, end)| == end && Payloads(source, 0, end)[i] == source(i)
    decreases end
  {
    if end > 1 {
      PayloadsAt(source, end - 1, if i < end - 1 then i else 0);
    }
  }

  lemma AdvanceHolds(b: Buffer, got: set<nat>, source: nat -> bytes)
    requires Holding(b, got, source) && b.next in b.pending
    ensures Holding(Advanced(b), got, source) && |Advanced(b).pending| < |b.pending|
  {
    assert Advanced(b).pending.Keys == b.pending.Keys - {b.next};
  }

  lemma ReleaseSteps(b: Buffer)
    requires b.next in b.pending && |Advanced(b).pending| < |b.pending|
    ensures var (b', out) := Release(Advanced(b));
            Release(b) == (b', [b.pending[b.next]] + out)
  {
  }

  lemma PayloadsFirst(source: nat -> bytes, a: nat, c: nat)
    requires a < c
    ensures Payloads(source, a, c) == [source(a)] + Payloads(source, a + 1, c)
  {
    assert Payloads(source, a, a + 1) == [source(a)];
    PayloadsAppend(source, a, a + 1, c);
  }

  lemma NothingReleased(b: Buffer, source: nat -> bytes)
    requires b.next !in b.pending
    ensures Release(b) == (b, []) && Payloads(source, b.next, b.next) == []
  {
  }

  lemma {:induction false} ReleaseHolds(b: Buffer, got: set<nat>, source: nat -> bytes)
    requires Holding(b, got, source)
    ensures var (b', out) := Release(b);
            && Holding(b', got, source) && b'.next !in got
            && b.next <= b'.next && out == Payloads(source, b.next, b'.next)
    decreases |b.pending|
  {
    if b.next in b.pending {
      assert b.pending[b.next] == source(b.next) && Advanced(b).next == b.next + 1;
      hide *;
      AdvanceHolds(b, got, source);
      ReleaseHolds(Advanced(b), got, source);
      ReleaseSteps(b);
      PayloadsFirst(source, b.next, Release(Advanced(b)).0.next);
    } else {
      NothingReleased(b, source);
    }
  }

  /** The packets of `got` in canonical form: everything below the first gap has been
      handed over in order, the rest waits. */
  ghost predicate Canonical(b: Buffer, out: seq<bytes>, got: set<nat>, source: nat -> bytes) {
    Holding(b, got, source) && b.next !in got && out == Payloads(source, 0, b.next)
  }

  /** Two buffers that have seen the same packets are the same. */
  lemma CanonicalIsUnique(b1: Buffer, out1: seq<bytes>, b2: Buffer, out2: seq<bytes>, got: set<nat>, source: nat -> bytes)
    requires Canonical(b1, out1, got, source) && Canonical(b2, out2, got, source)
    ensures b1 == b2 && out1 == out2
  {
    assert b1.next == b2.next;
    assert b1.pending.Keys == b2.pending.Keys;
  }

  lemma PushKeepsCanonical(b: Buffer, out: seq<bytes>, got: set<nat>, source: nat -> bytes, number: nat)
    requires Canonical(b, out, got, source)
    ensures var (b', more) := Pushed(b, number, source(number));
            Canonical(b', out + more, got + {number}, source)
  {
    if number < b.next {
      assert got + {number} == got;
      assert out + [] == out;
    } else {
      var b' := b.(pending := b.pending[number := source(number)]);
      ReleaseHolds(b', got + {number}, source);
      PayloadsAppend(source, 0, b.next, Release(b').0.next);
    }
  }

  function Elements(s: seq<nat>): set<nat> {
    set x | x in s
  }

  function Arrived(arrivals: seq<nat>, source: nat -> bytes): (Buffer, seq<bytes>) {
    if arrivals == [] then (Buffer(0, map[]), [])
    else
      var n := |arrivals| - 1;
      var (b, out) := Arrived(arrivals[..n], source);
      var (b', more) := Pushed(b, arrivals[n], source(arrivals[n]));
      (b', out + more)
  }

  lemma {:induction false} ArrivedIsCanonical(arrivals: seq<nat>, source: nat -> bytes)
    ensures var (b, out) := Arrived(arrivals, source);
            Canonical(b, out, Elements(arrivals), source)
  {
    if arrivals != [] {
      var n := |arrivals| - 1;
      ArrivedIsCanonical(arrivals[..n], source);
      var (b, out) := Arrived(arrivals[..n], source);
      PushKeepsCanonical(b, out, Elements(arrivals[..n]), source, arrivals[n]);
      assert arrivals == arrivals[..n] + [arrivals[n]];
      assert Elements(arrivals) == Elements(arrivals[..n]) + {arrivals[n]};
    }
  }

  /** Order and repetition do not matter: only which packets have arrived. */
  lemma OrderDoesNotMatter(a1: seq<nat>, a2: seq<nat>, source: nat -> bytes)
    requires Elements(a1) == Elements(a2)
    ensures Arrived(a1, source) == Arrived(a2, source)
  {
    ArrivedIsCanonical(a1, source);
    ArrivedIsCanonical(a2, source);
    var (b1, out1) := Arrived(a1, source);
    var (b2, out2) := Arrived(a2, source);
    CanonicalIsUnique(b1, out1, b2, out2, Elements(a1), source);
  }

  // ---------------------------------------------------------------- queues

  const UPLOAD_QUEUE_SIZE: nat := 256
  const MAX_POST_BYTES: nat := 1_000_000

  /** `open`: the receiver is there; `senders`: a sender is. */
  datatype Queue = Queue(chunks: seq<bytes>, capacity: nat, open: bool, senders: bool)

  predicate Takes(q: Queue) {
    q.open && |q.chunks| < q.capacity
  }

  function Sent(q: Queue, chunk: bytes): Queue {
    if Takes(q) then q.(chunks := q.chunks + [chunk]) else q
  }

  /** Offer the chunks one by one; a refused one is dropped. */
  function SentAll(q: Queue, chunks: seq<bytes>): Queue
    decreases chunks
  {
    if chunks == [] then q else SentAll(Sent(q, chunks[0]), chunks[1..])
  }

  /** Bytes dropped on the way into the queue. */
  function Lost(q: Queue, chunks: seq<bytes>): nat
    decreases chunks
  {
    if chunks == [] then 0
    else (if Takes(q) then 0 else |chunks[0]|) + Lost(Sent(q, chunks[0]), chunks[1..])
  }

  class Channel {
    var q: Queue

    constructor (capacity: nat)
      ensures q == Queue([], capacity, true, true)
    {
      q := Queue([], capacity, true, true);
    }

    method TrySend(chunk: bytes) returns (ok: bool)
      modifies this
      ensures ok == Takes(old(q)) && q == Sent(old(q), chunk)
    {
      ok := Takes(q);
      if ok {
        q := q.(chunks := q.chunks + [chunk]);
      }
    }

    /** The receiver is gone. */
    method Close()
      modifies this
      ensures q == old(q).(open := false)
    {
      q := q.(open := false);
    }

    /** The last sender is gone. */
    method DropSenders()
      modifies this
      ensures q == old(q).(senders := false)
    {
      q := q.(senders := false);
    }

    method TryRecv() returns (r: Option<bytes>)
      modifies this
      ensures old(q).chunks == [] ==> r == None && q == old(q)
      ensures old(q).chunks != [] ==> r == Some(old(q).chunks[0]) && q == old(q).(chunks := old(q).chunks[1..])
    {
      if q.chunks == [] {
        return None;
      }
      r := Some(q.chunks[0]);
      q := q.(chunks := q.chunks[1..]);
    }
  }

  class PacketState {
    var nextSeq: nat
    var pending: map<nat, bytes>

    constructor ()
      ensures View() == Buffer(0, map[])
    {
      nextSeq := 0;
      pending := map[];
    }

    function View(): Buffer
      reads this
    {
      Buffer(nextSeq, pending)
    }

    method Push(number: nat, payload: bytes, tx: Channel)
      modifies this, tx
      ensures var (b, out) := Pushed(old(View()), number, payload);
              View() == b && tx.q == SentAll(old(tx.q), out)
    {
      if number < nextSeq {
        return;
      }
      pending := pending[number := payload];
      ghost var b := View();
      while nextSeq in pending
        invariant Release(View()).0 == Release(b).0
        invariant SentAll(tx.q, Release(View()).1) == SentAll(old(tx.q), Release(b).1)
        decreases |pending|
      {
        var chunk := pending[nextSeq];
        assert (pending - {nextSeq}).Keys == pending.Keys - {nextSeq};
        ghost var (_, rest) := Release(Advanced(View()));
        assert ([chunk] + rest)[1..] == rest;
        pending := pending - {nextSeq};
        nextSeq := nextSeq + 1;
        var _ := tx.TrySend(chunk);
      }
    }
  }

  // ---------------------------------------------------------------- the reader

  /** One read into `room` bytes: the data, and what stays buffered and queued. */
  function ReadStep(part: bytes, chunks: seq<bytes>, room: nat): (bytes, bytes, seq<bytes>) {
    if part != [] then
      var n := Min(room, |part|);
      (part[..n], part[n..], chunks)
    else if chunks != [] then
      var n := Min(room, |chunks[0]|);
      (chunks[0][..n], chunks[0][n..], chunks[1..])
    else ([], [], [])
  }

  /** The answer to a read: nothing yet, or data; no data with room means the end. */
  function Polled(part: bytes, q: Queue, room: nat): Option<bytes> {
    if part == [] && q.chunks == [] && q.senders then None else Some(ReadStep(part, q.chunks, room).0)
  }

  class UploadReader {
    const rx: Channel
    var buf: bytes

    constructor (rx: Channel)
      ensures this.rx == rx && buf == []
    {
      this.rx := rx;
      buf := [];
    }

    method PollRead(room: nat) returns (r: Option<bytes>)
      modifies this, rx
      ensures var (_, part, chunks) := ReadStep(old(buf), old(rx.q.chunks), room);
              buf == part && rx.q == old(rx.q).(chunks := chunks)
      ensures r == Polled(old(buf), old(rx.q), room)
      // A read with room that yields nothing is the end of the stream. It happens exactly
      // when all is read and the senders are gone, or when the next chunk is empty.
      ensures room > 0 ==>
                (r == Some([]) <==>
                 old(buf) == [] && if old(rx.q.chunks) == [] then !old(rx.q.senders) else old(rx.q.chunks)[0] == [])
    {
      if buf != [] {
        var n := Min(room, |buf|);
        r := Some(buf[..n]);
        buf := buf[n..];
        return;
      }
      var next := rx.TryRecv();
      if next.None? {
        return if rx.q.senders then None else Some([]);
      }
      var n := Min(room, |next.value|);
      r := Some(next.value[..n]);
      if n < |next.value| {
        buf := next.value[n..];
      }
    }
  }

  lemma ReadConserves(part: bytes, chunks: seq<bytes>, room: nat)
    ensures var (data, part', chunks') := ReadStep(part, chunks, room);
            data + part' + Concat(chunks') == part + Concat(chunks)
  {
    var (data, part', chunks') := ReadStep(part, chunks, room);
    if part != [] {
      assert data + part' == part;
    } else if chunks != [] {
      assert data + part' == chunks[0];
    }
  }

  // ---------------------------------------------------------------- the server side, as runs

  datatype Event =
    | Post(path: string, payload: bytes)
    | Read(room: nat)
    | Hangup   // the reader is dropped
    | Forget   // the session, and with it the last sender, is dropped

  /** Reorder buffer, upload queue, reader, and what they have done so far. */
  datatype Server = Server(
    buffer: Buffer, queue: Queue, part: bytes,
    released: seq<bytes>, read: bytes, lost: nat)

  const IDLE := Server(Buffer(0, map[]), Queue([], UPLOAD_QUEUE_SIZE, true, true), [], [], [], 0)

  /** The number of a request of this session that is small enough to be taken. */
  function PostNumber(e: Event, base: string, session: string): Option<nat> {
    if e.Post? && |e.payload| <= MAX_POST_BYTES then
      var (id, number) := ExtractMeta(e.path, base);
      if id == session then ParseU64(number) else None
    else None
  }

  /** A request counts for a session exactly when it names it and has at most a million bytes. */
  lemma PostCountsExactly(base: string, session: string, other: string, n: nat, payload: bytes)
    requires other != [] && !Contains(other, '/') && n < U64_LIMIT
    ensures PostNumber(Post(PostPath(base, other, n), payload), base, session) ==
            if other == session && |payload| <= 1_000_000 then Some(n) else None
  {
    PathReadsBack(base, other, n);
    hide ExtractMeta, ParseU64, PostPath;
  }

  function Step(s: Server, e: Event, base: string, session: string): Server {
    match e
    case Post(path, payload) =>
      var number := PostNumber(e, base, session);
      if number.None? then s
      else
        var (b, out) := Pushed(s.buffer, number.value, payload);
        s.(buffer := b, queue := SentAll(s.queue, out), released := s.released + out, lost := s.lost + Lost(s.queue, out))
    case Read(room) =>
      var (data, part, chunks) := ReadStep(s.part, s.queue.chunks, room);
      s.(part := part, queue := s.queue.(chunks := chunks), read := s.read + data)
    case Hangup => s.(queue := s.queue.(open := false))
    case Forget => s.(queue := s.queue.(senders := false))
  }

  function Served(events: seq<Event>, base: string, session: string): Server {
    if events == [] then IDLE
    else Step(Served(events[..|events| - 1], base, session), events[|events| - 1], base, session)
  }

  lemma ServedGrows(events: seq<Event>, k: nat, base: string, session: string)
    requires k < |events|
    ensures Served(events[..k + 1], base, session) == Step(Served(events[..k], base, session), events[k], base, session)
  {
    assert events[..k + 1][..k] == events[..k];
  }

  /** One event, taken by the objects of a session. */
  method Serve(packets: PacketState, tx: Channel, reader: UploadReader, e: Event, base: string, session: string, ghost s: Server)
    returns (data: bytes)
    requires reader.rx == tx && packets.View() == s.buffer && tx.q == s.queue && reader.buf == s.part
    modifies packets, tx, reader
    ensures var t := Step(s, e, base, session);
            packets.View() == t.buffer && tx.q == t.queue && reader.buf == t.part && t.read == s.read + data
  {
    hide Pushed, SentAll, Lost, ExtractMeta, ParseU64;
    data := [];
    match e
    case Post(path, payload) =>
      var number := PostNumber(e, base, session);
      if number.Some? {
        packets.Push(number.value, payload, tx);
      }
    case Read(room) =>
      var r := reader.PollRead(room);
      if r.Some? {
        data := r.value;
      }
    case Hangup =>
      tx.Close();
    case Forget =>
      tx.DropSenders();
  }

  /** The objects of a session do what `Served` says, on every sequence of events. */
  method Replay(events: seq<Event>, base: string, session: string) returns (read: bytes)
    ensures read == Served(events, base, session).read
  {
    var packets := new PacketState();
    var tx := new Channel(UPLOAD_QUEUE_SIZE);
    var reader := new UploadReader(tx);
    read := [];
    assert events[..0] == [];
    ghost var s := IDLE;
    assert s == Served(events[..0], base, session);
    hide Step, Served;
    for k := 0 to |events|
      invariant s == Served(events[..k], base, session) && read == s.read
      invariant packets.View() == s.buffer && tx.q == s.queue && reader.buf == s.part
    {
      ServedGrows(events, k, base, session);
      var data := Serve(packets, tx, reader, events[k], base, session, s);
      read := read + data;
      s := Step(s, events[k], base, session);
    }
    assert events[..|events|] == events;
  }

  /** No byte is invented: what was read, buffered, queued and dropped is what was released. */
  ghost predicate Conserved(s: Server) {
    && |s.read + s.part + Concat(s.queue.chunks)| + s.lost == |Concat(s.released)|
    && (s.lost == 0 ==> s.read + s.part + Concat(s.queue.chunks) == Concat(s.released))
  }

  lemma SendSteps(q: Queue, out: seq<bytes>)
    requires out != []
    ensures SentAll(q, out) == SentAll(Sent(q, out[0]), out[1..])
    ensures Lost(q, out) == (if Takes(q) then 0 else |out[0]|) + Lost(Sent(q, out[0]), out[1..])
    ensures Concat(out) == out[0] + Concat(out[1..])
    ensures Concat(Sent(q, out[0]).chunks) == Concat(q.chunks) + if Takes(q) then out[0] else []
  {
    ConcatSnoc(q.chunks, out[0]);
  }

  lemma {:induction false} SendConserves(q: Queue, out: seq<bytes>)
    ensures |Concat(SentAll(q, out).chunks)| + Lost(q, out) == |Concat(q.chunks)| + |Concat(out)|
    ensures Lost(q, out) == 0 ==> Concat(SentAll(q, out).chunks) == Concat(q.chunks) + Concat(out)
    decreases out
  {
    if out != [] {
      SendSteps(q, out);
      SendConserves(Sent(q, out[0]), out[1..]);
      hide *;
      assert Concat(q.chunks) + out[0] + Concat(out[1..]) == Concat(q.chunks) + (out[0] + Concat(out[1..]));
      assert Concat(q.chunks) + [] == Concat(q.chunks);
    }
  }

  lemma BufferIsApart(s: Server, b: Buffer)
    requires Conserved(s)
    ensures Conserved(s.(buffer := b))
  {
  }

  lemma PostConserves(s: Server, out: seq<bytes>)
    requires Conserved(s)
    ensures Conserved(s.(queue := SentAll(s.queue, out), released := s.released + out, lost := s.lost + Lost(s.queue, out)))
  {
    SendConserves(s.queue, out);
    ConcatAppend(s.released, out);
    hide SentAll, Lost, Concat;
    var a, b, c := s.read + s.part, Concat(s.queue.chunks), Concat(out);
    assert a + (b + c) == a + b + c;
  }

  lemma TakeConserves(s: Server, room: nat)
    requires Conserved(s)
    ensures var (data, part, chunks) := ReadStep(s.part, s.queue.chunks, room);
            Conserved(s.(part := part, queue := s.queue.(chunks := chunks), read := s.read + data))
  {
    ReadConserves(s.part, s.queue.chunks, room);
    hide Concat, ReadStep;
    var (data, part, chunks) := ReadStep(s.part, s.queue.chunks, room);
    assert s.read + data + part + Concat(chunks) == s.read + (data + part + Concat(chunks));
    assert s.read + s.part + Concat(s.queue.chunks) == s.read + (s.part + Concat(s.queue.chunks));
  }

  lemma StepConserves(s: Server, e: Event, base: string, session: string)
    requires Conserved(s)
    ensures Conserved(Step(s, e, base, session))
  {
    match e
    case Post(path, payload) =>
      hide Conserved, Pushed, SentAll, Lost, ExtractMeta, ParseU64;
      var number := PostNumber(e, base, session);
      if number.Some? {
        var (b, out) := Pushed(s.buffer, number.value, payload);
        BufferIsApart(s, b);
        PostConserves(s.(buffer := b), out);
      }
    case Read(room) =>
      TakeConserves(s, room);
    case _ =>
  }

  /** Every request that counts carries the payload its number stands for. */
  ghost predicate Genuine(e: Event, base: string, session: string, source: nat -> bytes) {
    var number := PostNumber(e, base, session);
    number.Some? ==> e.payload == source(number.value)
  }

  /** Numbers of the requests that count. */
  function Numbers(events: seq<Event>, base: string, session: string): set<nat> {
    set e | e in events && PostNumber(e, base, session).Some? :: PostNumber(e, base, session).value
  }

  lemma NumbersGrow(events: seq<Event>, e: Event, base: string, session: string)
    ensures var number := PostNumber(e, base, session);
            Numbers(events + [e], base, session) == Numbers(events, base, session) + if number.Some? then {number.value} else {}
  {
    hide PostNumber;
  }

  lemma StepKeepsCanonical(s: Server, e: Event, got: set<nat>, base: string, session: string, source: nat -> bytes)
    requires Canonical(s.buffer, s.released, got, source) && Genuine(e, base, session, source)
    ensures var t, number := Step(s, e, base, session), PostNumber(e, base, session);
            Canonical(t.buffer, t.released, got + if number.Some? then {number.value} else {}, source)
  {
    hide Canonical, Pushed, SentAll, Lost, ReadStep, ExtractMeta, ParseU64;
    assert got + {} == got;
    var number := PostNumber(e, base, session);
    if number.Some? {
      PushKeepsCanonical(s.buffer, s.released, got, source, number.value);
    }
  }

  /** After any events the server holds the canonical form of the packets that arrived. */
  lemma {:induction false} ServerInv(events: seq<Event>, base: string, session: string, source: nat -> bytes)
    requires forall e :: e in events ==> Genuine(e, base, session, source)
    ensures var s := Served(events, base, session);
            Conserved(s) && Canonical(s.buffer, s.released, Numbers(events, base, session), source)
  {
    if events != [] {
      var n := |events| - 1;
      var e, before := events[n], events[..n];
      assert events == before + [e];
      ServerInv(before, base, session, source);
      hide Conserved, Canonical, Numbers, Genuine, Step;
      var s := Served(before, base, session);
      StepConserves(s, e, base, session);
      NumbersGrow(before, e, base, session);
      StepKeepsCanonical(s, e, Numbers(before, base, session), base, session, source);
    }
  }

  // ---------------------------------------------------------------- when nothing is turned away

  /** There is a receiver, and room for all of the chunks. */
  predicate Fits(q: Queue, out: seq<bytes>) {
    out == [] || (q.open && |q.chunks| + |out| <= q.capacity)
  }

  /** No chunk is empty. */
  predicate Solid(chunks: seq<bytes>) {
    forall c :: c in chunks ==> c != []
  }

  lemma {:induction false} LostExactly(q: Queue, out: seq<bytes>)
    requires Solid(out)
    ensures Lost(q, out) == 0 <==> Fits(q, out)
    decreases out
  {
    if out != [] {
      assert out[0] in out && (forall c :: c in out[1..] ==> c in out);
      LostExactly(Sent(q, out[0]), out[1..]);
    }
  }

  /** If the event is a request that counts, what it releases fits into the queue. */
  predicate PostFits(s: Server, e: Event, base: string, session: string) {
    var number := PostNumber(e, base, session);
    number.Some? ==> Fits(s.queue, Pushed(s.buffer, number.value, e.payload).1)
  }

  predicate AllFit(events: seq<Event>, base: string, session: string) {
    events != [] ==>
      var n := |events| - 1;
      AllFit(events[..n], base, session) && PostFits(Served(events[..n], base, session), events[n], base, session)
  }

  lemma SolidSplits(a: seq<bytes>, b: seq<bytes>)
    ensures Solid(a + b) <==> Solid(a) && Solid(b)
  {
    assert forall c :: c in a + b <==> c in a || c in b;
  }

  lemma StepLosesNothing(s: Server, e: Event, base: string, session: string)
    requires Solid(Step(s, e, base, session).released)
    ensures Solid(s.released)
    ensures Step(s, e, base, session).lost == 0 <==> s.lost == 0 && PostFits(s, e, base, session)
  {
    hide Pushed, Lost, SentAll, ReadStep, Fits, Solid, ExtractMeta, ParseU64;
    var number := PostNumber(e, base, session);
    if number.Some? {
      var (_, out) := Pushed(s.buffer, number.value, e.payload);
      SolidSplits(s.released, out);
      LostExactly(s.queue, out);
    }
  }

  lemma {:induction false} LostNothing(events: seq<Event>, base: string, session: string)
    requires Solid(Served(events, base, session).released)
    ensures Served(events, base, session).lost == 0 <==> AllFit(events, base, session)
  {
    if events != [] {
      var n := |events| - 1;
      hide Step, PostFits, Solid;
      StepLosesNothing(Served(events[..n], base, session), events[n], base, session);
      LostNothing(events[..n], base, session);
    }
  }

  /** Whatever waits in the queue has been released. */
  ghost predicate QueueReleased(s: Server) {
    forall c :: c in s.queue.chunks ==> c in s.released
  }

  lemma {:induction false} SentAllAdds(q: Queue, out: seq<bytes>, c: bytes)
    requires c in SentAll(q, out).chunks
    ensures c in q.chunks || c in out
    decreases out
  {
    if out != [] {
      SentAllAdds(Sent(q, out[0]), out[1..], c);
    }
  }

  lemma {:induction false} QueueIsReleased(events: seq<Event>, base: string, session: string)
    ensures QueueReleased(Served(events, base, session))
  {
    if events != [] {
      var n := |events| - 1;
      QueueIsReleased(events[..n], base, session);
      var s, t := Served(events[..n], base, session), Served(events, base, session);
      forall c | c in t.queue.chunks
        ensures c in t.released
      {
        var number := PostNumber(events[n], base, session);
        if number.Some? {
          var (_, out) := Pushed(s.buffer, number.value, events[n].payload);
          SentAllAdds(s.queue, out, c);
        }
      }
    }
  }
}
