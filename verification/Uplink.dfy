/** The whole packet-up uplink: the client's writer and posting task, and what of their
    bytes the server's reader gets. */
module Uplink {
  import opened Bytes
  import opened XhttpPath
  import opened PacketUp

  // ---------------------------------------------------------------- the client side

  datatype WriteResult = Accepted(n: nat) | Full | Closed

  /** The writer's pending chunk and the chunks it has handed to the posting task. */
  datatype Writer = Writer(pending: Option<bytes>, sent: seq<bytes>)

  function Chosen(w: Writer, buf: bytes): bytes {
    if w.pending.Some? then w.pending.value else buf
  }

  /** One write. A chunk that finds the queue full waits and goes out on the retry. */
  predicate WriteStep(w: Writer, buf: bytes, r: WriteResult, w': Writer) {
    if buf == [] then r == Accepted(0) && w' == w
    else
      var chunk := Chosen(w, buf);
      if r.Accepted? then r.n == |chunk| && w' == Writer(None, w.sent + [chunk])
      else w' == Writer(Some(chunk), w.sent)
  }

  class PacketUpWriter {
    const tx: Channel
    var pending: Option<bytes>
    ghost var sent: seq<bytes>

    constructor (tx: Channel)
      ensures this.tx == tx && View() == Writer(None, [])
    {
      this.tx := tx;
      pending := None;
      sent := [];
    }

    ghost function View(): Writer
      reads this
    {
      Writer(pending, sent)
    }

    method PollWrite(buf: bytes) returns (r: WriteResult)
      modifies this, tx
      ensures WriteStep(old(View()), buf, r, View())
      ensures buf != [] ==> (r.Accepted? <==> Takes(old(tx.q))) && tx.q == Sent(old(tx.q), Chosen(old(View()), buf))
      ensures buf == [] ==> tx.q == old(tx.q)
      ensures r.Closed? ==> !old(tx.q).open
    {
      if buf == [] {
        return Accepted(0);
      }
      if pending.None? {
        pending := Some(buf);
      }
      var chunk := pending.value;
      var ok := tx.TrySend(chunk);
      if ok {
        sent := sent + [chunk];
        pending := None;
        return Accepted(|chunk|);
      }
      r := if tx.q.open then Full else Closed;
    }
  }

  datatype WriterRun = Start | Then(prev: WriterRun, buf: bytes, result: WriteResult, writer: Writer)

  function LastWriter(run: WriterRun): Writer {
    if run.Start? then Writer(None, []) else run.writer
  }

  /** A run of writes in which an unanswered write is retried with the same bytes, or more. */
  predicate IsWriterRun(run: WriterRun) {
    run.Then? ==>
      && IsWriterRun(run.prev)
      && WriteStep(LastWriter(run.prev), run.buf, run.result, run.writer)
      && (LastWriter(run.prev).pending.Some? ==> LastWriter(run.prev).pending.value <= run.buf)
  }

  function AcceptedBytes(run: WriterRun): bytes {
    if run.Start? then []
    else
      var before := AcceptedBytes(run.prev);
      if run.result.Accepted? then before + run.buf[..Min(run.result.n, |run.buf|)] else before
  }

  /** Every accepted byte is in exactly one chunk, in order; chunks are never empty. */
  lemma {:induction false} WriterExactlyOnce(run: WriterRun)
    requires IsWriterRun(run)
    ensures Concat(LastWriter(run).sent) == AcceptedBytes(run)
    ensures forall c :: c in LastWriter(run).sent ==> c != []
    ensures LastWriter(run).pending.Some? ==> LastWriter(run).pending.value != []
  {
    if run.Then? {
      WriterExactlyOnce(run.prev);
      var w := LastWriter(run.prev);
      if run.buf == [] {
        assert run.buf[..0] == [];
      } else if run.result.Accepted? {
        var chunk := Chosen(w, run.buf);
        ConcatSnoc(w.sent, chunk);
        assert run.buf[..|chunk|] == chunk;
      }
    }
  }

  // ---------------------------------------------------------------- the posting task

  const CLIENT_QUEUE_SIZE: nat := 64

  /** Takes chunks off the writer's queue, numbers them from 0 and posts each, until a
      request fails; then it drops the queue. */
  class Poster {
    const rx: Channel
    var seqNumber: nat
    var running: bool

    constructor (rx: Channel)
      ensures this.rx == rx && seqNumber == 0 && running
    {
      this.rx := rx;
      seqNumber, running := 0, true;
    }

    /** One turn of its loop, if there is a chunk; `ok` is how the request ends. */
    method PostNext(base: string, session: string, ok: bool) returns (post: Option<Event>)
      modifies this, rx
      ensures var q := old(rx.q);
              if old(running) && q.chunks != [] then
                && post == Some(Post(PostPath(base, session, old(seqNumber)), q.chunks[0]))
                && rx.q == q.(chunks := q.chunks[1..], open := q.open && ok)
                && seqNumber == old(seqNumber) + 1 && running == ok
              else post == None && rx.q == q && seqNumber == old(seqNumber) && running == old(running)
    {
      if !running {
        return None;
      }
      var payload := rx.TryRecv();
      if payload.None? {
        return None;
      }
      post := Some(Post(PostPath(base, session, seqNumber), payload.value));
      seqNumber := seqNumber + 1;
      if !ok {
        running := false;
        rx.Close();
      }
    }
  }

  /** Writes and turns of the posting task, in any order. */
  datatype ClientEvent = Writes(buf: bytes) | Posts(ok: bool)

  datatype Client = Client(writer: Writer, queue: Queue, posts: seq<Event>, running: bool)

  const NEW_CLIENT := Client(Writer(None, []), Queue([], CLIENT_QUEUE_SIZE, true, true), [], true)

  function WriteAnswer(c: Client, buf: bytes): WriteResult {
    if buf == [] then Accepted(0)
    else if Takes(c.queue) then Accepted(|Chosen(c.writer, buf)|)
    else if c.queue.open then Full
    else Closed
  }

  function ClientStep(c: Client, e: ClientEvent, base: string, session: string): Client {
    match e
    case Writes(buf) =>
      if buf == [] then c
      else
        var chunk := Chosen(c.writer, buf);
        c.(queue := Sent(c.queue, chunk),
           writer := if Takes(c.queue) then Writer(None, c.writer.sent + [chunk]) else Writer(Some(chunk), c.writer.sent))
    case Posts(ok) =>
      if !c.running || c.queue.chunks == [] then c
      else
        Client(c.writer, c.queue.(chunks := c.queue.chunks[1..], open := c.queue.open && ok),
               c.posts + [Post(PostPath(base, session, |c.posts|), c.queue.chunks[0])], ok)
  }

  function ClientAfter(events: seq<ClientEvent>, base: string, session: string): Client {
    if events == [] then NEW_CLIENT
    else ClientStep(ClientAfter(events[..|events| - 1], base, session), events[|events| - 1], base, session)
  }

  /** The writes among the events, with their answers. */
  function WritesOf(events: seq<ClientEvent>, base: string, session: string): WriterRun {
    if events == [] then WriterRun.Start
    else
      var n := |events| - 1;
      var run := WritesOf(events[..n], base, session);
      if events[n].Posts? then run
      else
        Then(run, events[n].buf, WriteAnswer(ClientAfter(events[..n], base, session), events[n].buf),
             ClientAfter(events, base, session).writer)
  }

  /** An unanswered write is retried with the same bytes, or more. */
  predicate Retried(events: seq<ClientEvent>, base: string, session: string) {
    events != [] ==>
      var n := |events| - 1;
      var pending := ClientAfter(events[..n], base, session).writer.pending;
      Retried(events[..n], base, session) && (events[n].Writes? && pending.Some? ==> pending.value <= events[n].buf)
  }

  /** The posts so far are the first chunks sent, numbered; the rest is queued. */
  ghost predicate InStep(c: Client, base: string, session: string) {
    var sent, k := c.writer.sent, |c.posts|;
    && k <= |sent| && c.queue.chunks == sent[k..]
    && (forall i :: 0 <= i < k ==> c.posts[i] == Post(PostPath(base, session, i), sent[i]))
  }

  lemma StepKeepsInStep(c: Client, e: ClientEvent, base: string, session: string)
    requires InStep(c, base, session)
    ensures InStep(ClientStep(c, e, base, session), base, session)
  {
    hide PostPath;
  }

  /** However writing and posting interleave, packet `i` carries the `i`-th chunk sent. */
  lemma {:induction false} ClientInStep(events: seq<ClientEvent>, base: string, session: string)
    ensures InStep(ClientAfter(events, base, session), base, session)
    ensures LastWriter(WritesOf(events, base, session)) == ClientAfter(events, base, session).writer
    ensures Retried(events, base, session) ==> IsWriterRun(WritesOf(events, base, session))
  {
    if events != [] {
      var n := |events| - 1;
      ClientInStep(events[..n], base, session);
      StepKeepsInStep(ClientAfter(events[..n], base, session), events[n], base, session);
      hide InStep, PostPath;
    }
  }

  lemma ClientGrows(events: seq<ClientEvent>, k: nat, base: string, session: string)
    requires k < |events|
    ensures ClientAfter(events[..k + 1], base, session) == ClientStep(ClientAfter(events[..k], base, session), events[k], base, session)
  {
    assert events[..k + 1][..k] == events[..k];
  }

  /** One event, taken by the client's objects. */
  method Drive(writer: PacketUpWriter, poster: Poster, e: ClientEvent, base: string, session: string, ghost c: Client)
    returns (post: Option<Event>)
    requires poster.rx == writer.tx && writer.View() == c.writer && writer.tx.q == c.queue
    requires poster.running == c.running && poster.seqNumber == |c.posts|
    modifies writer, writer.tx, poster
    ensures var d := ClientStep(c, e, base, session);
            && writer.View() == d.writer && writer.tx.q == d.queue
            && poster.running == d.running && poster.seqNumber == |d.posts|
            && d.posts == c.posts + if post.Some? then [post.value] else []
  {
    hide PostPath;
    post := None;
    match e
    case Writes(buf) =>
      var _ := writer.PollWrite(buf);
    case Posts(ok) =>
      post := poster.PostNext(base, session, ok);
  }

  /** The objects of the client post what `ClientAfter` says, on every sequence of events. */
  method RunClient(events: seq<ClientEvent>, base: string, session: string) returns (posts: seq<Event>)
    ensures posts == ClientAfter(events, base, session).posts
  {
    var tx := new Channel(CLIENT_QUEUE_SIZE);
    var writer := new PacketUpWriter(tx);
    var poster := new Poster(tx);
    posts := [];
    assert events[..0] == [];
    ghost var c := NEW_CLIENT;
    assert c == ClientAfter(events[..0], base, session);
    hide ClientStep, ClientAfter;
    for k := 0 to |events|
      invariant c == ClientAfter(events[..k], base, session) && posts == c.posts
      invariant writer.View() == c.writer && tx.q == c.queue
      invariant poster.running == c.running && poster.seqNumber == |c.posts|
    {
      ClientGrows(events, k, base, session);
      var post := Drive(writer, poster, events[k], base, session, c);
      if post.Some? {
        posts := posts + [post.value];
      }
      c := ClientStep(c, events[k], base, session);
    }
    assert events[..|events|] == events;
  }

  // ---------------------------------------------------------------- end to end

  function Source(sent: seq<bytes>): nat -> bytes {
    i => if 0 <= i < |sent| then sent[i] else []
  }

  /** The request is a copy of one the client made. */
  ghost predicate Posted(e: Event, sent: seq<bytes>, base: string, session: string) {
    e.Post? ==> exists i :: 0 <= i < |sent| && e.path == PostPath(base, session, i) && e.payload == sent[i]
  }

  lemma PostedIsGenuine(e: Event, sent: seq<bytes>, base: string, session: string)
    requires session != [] && !Contains(session, '/') && |sent| <= U64_LIMIT
    requires Posted(e, sent, base, session)
    ensures Genuine(e, base, session, Source(sent))
    ensures PostNumber(e, base, session).Some? ==> PostNumber(e, base, session).value < |sent|
  {
    if e.Post? {
      var i :| 0 <= i < |sent| && e.path == PostPath(base, session, i) && e.payload == sent[i];
      PathReadsBack(base, session, i);
    }
  }

  lemma {:induction false} PrefixConcat(sent: seq<bytes>, n: nat)
    requires n <= |sent|
    ensures Concat(sent[..n]) <= Concat(sent)
  {
    ConcatAppend(sent[..n], sent[n..]);
    assert sent[..n] + sent[n..] == sent;
  }

  /** What has been released is the first packets the client sent, as far as they have
      all arrived. */
  lemma ReleasedIsSent(sent: seq<bytes>, events: seq<Event>, base: string, session: string)
    requires session != [] && !Contains(session, '/') && |sent| <= U64_LIMIT
    requires forall e :: e in events ==> Posted(e, sent, base, session)
    ensures var s := Served(events, base, session);
            && Conserved(s)
            && s.buffer.next <= |sent| && s.released == sent[..s.buffer.next]
            && s.buffer.next !in Numbers(events, base, session)
  {
    forall e | e in events
      ensures Genuine(e, base, session, Source(sent))
    {
      PostedIsGenuine(e, sent, base, session);
    }
    ServerInv(events, base, session, Source(sent));
    var s := Served(events, base, session);
    if s.buffer.next > |sent| {
      assert |sent| in Numbers(events, base, session);
      var e :| e in events && PostNumber(e, base, session) == Some(|sent|);
      PostedIsGenuine(e, sent, base, session);
      assert false;
    }
    forall i | 0 <= i < s.buffer.next
      ensures |s.released| == s.buffer.next && s.released[i] == sent[i]
    {
      PayloadsAt(Source(sent), s.buffer.next, i);
    }
    assert s.released == sent[..s.buffer.next];
  }

  /** Every released byte was read or still waits, in order. */
  ghost predicate Unbroken(s: Server) {
    s.read + s.part + Concat(s.queue.chunks) == Concat(s.released)
  }

  /** End to end: whatever the network does to the order and number of the requests, the
      bytes on their way to the reader are unbroken exactly when every request found room
      in the queue for what it released. Then the bytes read are a prefix of the bytes
      accepted, and all of them once every packet has arrived and been read. */
  lemma EndToEnd(run: WriterRun, events: seq<Event>, base: string, session: string)
    requires IsWriterRun(run) && session != [] && !Contains(session, '/')
    requires |LastWriter(run).sent| <= U64_LIMIT
    requires forall e :: e in events ==> Posted(e, LastWriter(run).sent, base, session)
    ensures var s, fit := Served(events, base, session), AllFit(events, base, session);
            && (Unbroken(s) <==> fit)
            && (fit ==> s.read <= AcceptedBytes(run))
            && (&& fit && s.part == [] && s.queue.chunks == []
                && (forall i :: 0 <= i < |LastWriter(run).sent| ==> i in Numbers(events, base, session))
                ==> s.read == AcceptedBytes(run))
  {
    var sent := LastWriter(run).sent;
    WriterExactlyOnce(run);
    ReleasedIsSent(sent, events, base, session);
    var s := Served(events, base, session);
    assert Solid(s.released) by {
      assert forall c :: c in s.released ==> c in sent;
    }
    LostNothing(events, base, session);
    PrefixConcat(sent, s.buffer.next);
    hide Served, AllFit, Posted, PostNumber, IsWriterRun, LastWriter, AcceptedBytes, Solid;
    if s.lost == 0 {
      assert s.read <= s.read + s.part + Concat(s.queue.chunks);
      if s.buffer.next == |sent| {
        assert sent[..|sent|] == sent;
      }
      assert s.part == [] && s.queue.chunks == [] ==> s.read + s.part + Concat(s.queue.chunks) == s.read;
    }
  }

  /** The whole uplink: writer, posting task, network, server and reader. The requests the
      server sees are copies of posts the client made, in any order and number. */
  lemma UplinkDelivers(client: seq<ClientEvent>, events: seq<Event>, base: string, session: string)
    requires Retried(client, base, session) && session != [] && !Contains(session, '/')
    requires |ClientAfter(client, base, session).writer.sent| <= U64_LIMIT
    requires forall e :: e in events && e.Post? ==> e in ClientAfter(client, base, session).posts
    requires AllFit(events, base, session)
    ensures var s, c, run := Served(events, base, session), ClientAfter(client, base, session), WritesOf(client, base, session);
            && s.read <= AcceptedBytes(run)
            && (&& s.part == [] && s.queue.chunks == [] && c.queue.chunks == []
                && (forall e :: e in c.posts ==> e in events && e.Post? && |e.payload| <= MAX_POST_BYTES)
                ==> s.read == AcceptedBytes(run))
  {
    var c, run := ClientAfter(client, base, session), WritesOf(client, base, session);
    ClientInStep(client, base, session);
    var sent := LastWriter(run).sent;
    forall e | e in events
      ensures Posted(e, sent, base, session)
    {
      if e.Post? {
        var i :| 0 <= i < |c.posts| && c.posts[i] == e;
        assert e.path == PostPath(base, session, i) && e.payload == sent[i];
      }
    }
    EndToEnd(run, events, base, session);
    if c.queue.chunks == [] && forall e :: e in c.posts ==> e in events && e.Post? && |e.payload| <= MAX_POST_BYTES {
      forall i | 0 <= i < |sent|
        ensures i in Numbers(events, base, session)
      {
        assert c.posts[i] in c.posts;
        PathReadsBack(base, session, i);
        assert PostNumber(c.posts[i], base, session) == Some(i);
      }
    }
  }

  // ---------------------------------------------------------------- a refused chunk

  /** The first `k` packets, in order. */
  function InOrder(sent: seq<bytes>, k: nat, base: string, session: string): seq<Event>
    requires k <= |sent|
  {
    if k == 0 then [] else InOrder(sent, k - 1, base, session) + [Post(PostPath(base, session, k - 1), sent[k - 1])]
  }

  function Reads(n: nat, room: nat): seq<Event> {
    if n == 0 then [] else Reads(n - 1, room) + [Read(room)]
  }

  lemma ServedThen(events: seq<Event>, e: Event, base: string, session: string)
    ensures Served(events + [e], base, session) == Step(Served(events, base, session), e, base, session)
  {
    assert (events + [e])[..|events|] == events;
  }

  lemma PushNext(k: nat, payload: bytes)
    ensures Pushed(Buffer(k, map[]), k, payload) == (Buffer(k + 1, map[]), [payload])
  {
    var empty: map<nat, bytes> := map[];
    var b, after := Buffer(k, empty[k := payload]), Buffer(k + 1, map[]);
    assert Advanced(b) == after && Release(after) == (after, []);
    assert Release(b) == (after, [payload] + []) && [payload] + [] == [payload];
  }

  /** Packets in order go straight to the queue. */
  lemma PostInOrder(s: Server, k: nat, payload: bytes, base: string, session: string)
    requires session != [] && !Contains(session, '/') && k < U64_LIMIT
    requires s.buffer == Buffer(k, map[]) && |payload| <= MAX_POST_BYTES
    ensures var t := Step(s, Post(PostPath(base, session, k), payload), base, session);
            && t.buffer == Buffer(k + 1, map[]) && t.queue == Sent(s.queue, payload)
            && t.part == s.part && t.read == s.read
  {
    PathReadsBack(base, session, k);
    PushNext(k, payload);
    assert SentAll(Sent(s.queue, payload), [payload][1..]) == Sent(s.queue, payload);
    hide ExtractMeta, ParseU64, PostPath, Pushed;
  }

  lemma SentFills(sent: seq<bytes>, k: nat, n: nat)
    requires 0 < k <= |sent|
    ensures Sent(Queue(sent[..Min(k - 1, n)], n, true, true), sent[k - 1]) == Queue(sent[..Min(k, n)], n, true, true)
  {
    if k <= n {
      assert sent[..k] == sent[..k - 1] + [sent[k - 1]];
    }
  }

  predicate Short(chunks: seq<bytes>, room: nat) {
    forall c :: c in chunks ==> |c| <= room
  }

  lemma {:induction false} QueueFills(sent: seq<bytes>, k: nat, base: string, session: string)
    requires session != [] && !Contains(session, '/') && k <= |sent| <= U64_LIMIT
    requires Short(sent, MAX_POST_BYTES)
    ensures var s := Served(InOrder(sent, k, base, session), base, session);
            && s.buffer == Buffer(k, map[]) && s.part == [] && s.read == []
            && s.queue == Queue(sent[..Min(k, UPLOAD_QUEUE_SIZE)], UPLOAD_QUEUE_SIZE, true, true)
  {
    if k > 0 {
      var before, e := InOrder(sent, k - 1, base, session), Post(PostPath(base, session, k - 1), sent[k - 1]);
      assert InOrder(sent, k, base, session) == before + [e] && sent[k - 1] in sent;
      hide *;
      QueueFills(sent, k - 1, base, session);
      ServedThen(before, e, base, session);
      PostInOrder(Served(before, base, session), k - 1, sent[k - 1], base, session);
      SentFills(sent, k, UPLOAD_QUEUE_SIZE);
    }
  }

  lemma ReadOne(s: Server, room: nat, base: string, session: string)
    requires s.part == [] && s.queue.chunks != [] && |s.queue.chunks[0]| <= room
    ensures var t := Step(s, Read(room), base, session);
            t == s.(queue := s.queue.(chunks := s.queue.chunks[1..]), read := s.read + s.queue.chunks[0])
  {
    var c := s.queue.chunks[0];
    assert c[..|c|] == c && c[|c|..] == [];
  }

  lemma TakeOneMore(chunks: seq<bytes>, n: nat)
    requires 0 < n <= |chunks|
    ensures chunks[n - 1..][0] == chunks[n - 1] && chunks[n - 1] in chunks && chunks[n - 1..][1..] == chunks[n..]
    ensures Concat(chunks[..n]) == Concat(chunks[..n - 1]) + chunks[n - 1]
  {
    ConcatSnoc(chunks[..n - 1], chunks[n - 1]);
    assert chunks[..n] == chunks[..n - 1] + [chunks[n - 1]];
  }

  /** After `n` of the queued chunks have been read. */
  function Drained(s: Server, n: nat): Server
    requires n <= |s.queue.chunks|
  {
    s.(queue := s.queue.(chunks := s.queue.chunks[n..]), read := s.read + Concat(s.queue.chunks[..n]))
  }

  lemma NothingDrained(s: Server)
    ensures Drained(s, 0) == s
  {
  }

  lemma DrainStep(s: Server, n: nat, room: nat, base: string, session: string)
    requires s.part == [] && 0 < n <= |s.queue.chunks| && Short(s.queue.chunks, room)
    ensures Step(Drained(s, n - 1), Read(room), base, session) == Drained(s, n)
  {
    hide Step, Concat;
    var chunks := s.queue.chunks;
    TakeOneMore(chunks, n);
    var c, a := chunks[n - 1], Concat(chunks[..n - 1]);
    assert |c| <= room && (s.read + a) + c == s.read + (a + c);
    hide Short;
    ReadOne(Drained(s, n - 1), room, base, session);
  }

  lemma {:induction false} ReadsDrain(events: seq<Event>, n: nat, room: nat, base: string, session: string)
    requires var s := Served(events, base, session);
             s.part == [] && n <= |s.queue.chunks| && Short(s.queue.chunks, room)
    ensures Served(events + Reads(n, room), base, session) == Drained(Served(events, base, session), n)
  {
    hide Served, Step, Short, Drained, Concat;
    var s := Served(events, base, session);
    if n == 0 {
      assert events + Reads(0, room) == events;
      NothingDrained(s);
    } else {
      var before := events + Reads(n - 1, room);
      assert before + [Read(room)] == events + Reads(n, room);
      ReadsDrain(events, n - 1, room, base, session);
      ServedThen(before, Read(room), base, session);
      DrainStep(s, n, room, base, session);
    }
  }

  /** Fill the queue, send one packet too many, read it all, send and read one more. */
  function Overrun(sent: seq<bytes>, base: string, session: string): seq<Event>
    requires |sent| == UPLOAD_QUEUE_SIZE + 2
  {
    var n := UPLOAD_QUEUE_SIZE;
    InOrder(sent, n + 1, base, session) + Reads(n, MAX_POST_BYTES)
    + [Post(PostPath(base, session, n + 1), sent[n + 1])] + [Read(MAX_POST_BYTES)]
  }

  /** The queue is full of the first packets and one was turned away; then all is read. */
  lemma FillAndDrain(sent: seq<bytes>, base: string, session: string)
    requires session != [] && !Contains(session, '/') && |sent| == UPLOAD_QUEUE_SIZE + 2
    requires Short(sent, MAX_POST_BYTES)
    ensures var n := UPLOAD_QUEUE_SIZE;
            var s := Served(InOrder(sent, n + 1, base, session) + Reads(n, MAX_POST_BYTES), base, session);
            && s.buffer == Buffer(n + 1, map[]) && s.part == []
            && s.queue == Queue([], n, true, true) && s.read == Concat(sent[..n])
  {
    var n := UPLOAD_QUEUE_SIZE;
    assert n + 2 < U64_LIMIT && Min(n + 1, n) == n;
    var events := InOrder(sent, n + 1, base, session);
    hide UPLOAD_QUEUE_SIZE, MAX_POST_BYTES, U64_LIMIT, Served, InOrder, Reads, Concat, PostPath, Min;
    QueueFills(sent, n + 1, base, session);
    assert Short(sent[..n], MAX_POST_BYTES);
    ReadsDrain(events, n, MAX_POST_BYTES, base, session);
    assert sent[..n][..n] == sent[..n] && sent[..n][n..] == [];
  }

  lemma SentToEmpty(n: nat, chunk: bytes)
    requires n > 0
    ensures Sent(Queue([], n, true, true), chunk) == Queue([chunk], n, true, true)
  {
  }

  lemma OverrunReads(sent: seq<bytes>, base: string, session: string)
    requires session != [] && !Contains(session, '/') && |sent| == UPLOAD_QUEUE_SIZE + 2
    requires Short(sent, MAX_POST_BYTES)
    ensures var n := UPLOAD_QUEUE_SIZE;
            Served(Overrun(sent, base, session), base, session).read == Concat(sent[..n]) + sent[n + 1]
  {
    var n, room := UPLOAD_QUEUE_SIZE, MAX_POST_BYTES;
    var events := InOrder(sent, n + 1, base, session) + Reads(n, room);
    var post := Post(PostPath(base, session, n + 1), sent[n + 1]);
    assert Overrun(sent, base, session) == events + [post] + [Read(room)];
    assert n + 2 < U64_LIMIT && n > 0 && sent[n + 1] in sent && |sent[n + 1]| <= room;
    hide *;
    FillAndDrain(sent, base, session);
    ServedThen(events, post, base, session);
    ServedThen(events + [post], Read(room), base, session);
    PostInOrder(Served(events, base, session), n + 1, sent[n + 1], base, session);
    SentToEmpty(n, sent[n + 1]);
    ReadOne(Served(events + [post], base, session), room, base, session);
  }

  lemma {:induction false} OverrunIsPosted(sent: seq<bytes>, k: nat, base: string, session: string)
    requires k <= |sent|
    ensures forall e :: e in InOrder(sent, k, base, session) ==> Posted(e, sent, base, session)
  {
    if k > 0 {
      OverrunIsPosted(sent, k - 1, base, session);
    }
  }

  lemma {:induction false} ReadsAreReads(n: nat, room: nat)
    ensures forall e :: e in Reads(n, room) ==> e == Read(room)
  {
    if n > 0 {
      ReadsAreReads(n - 1, room);
    }
  }

  lemma GapIsNoPrefix(a: bytes, b: bytes, c: bytes)
    requires b != [] && c != [] && b[0] != c[0]
    ensures !(a + c <= a + b + c)
  {
    assert (a + c)[|a|] == c[0];
    assert (a + b + c)[|a|] == b[0];
  }

  lemma GapShows(sent: seq<bytes>, n: nat)
    requires |sent| == n + 2 && sent[n] != [] && sent[n + 1] != [] && sent[n][0] != sent[n + 1][0]
    ensures !(Concat(sent[..n]) + sent[n + 1] <= Concat(sent))
  {
    hide Concat;
    assert sent[..n + 2] == sent;
    TakeOneMore(sent, n + 1);
    TakeOneMore(sent, n + 2);
    GapIsNoPrefix(Concat(sent[..n]), sent[n], sent[n + 1]);
  }

  lemma OverrunIsGenuine(sent: seq<bytes>, base: string, session: string)
    requires |sent| == UPLOAD_QUEUE_SIZE + 2
    ensures forall e :: e in Overrun(sent, base, session) ==> Posted(e, sent, base, session)
  {
    OverrunIsPosted(sent, UPLOAD_QUEUE_SIZE + 1, base, session);
    ReadsAreReads(UPLOAD_QUEUE_SIZE, MAX_POST_BYTES);
    hide InOrder, Reads, PostPath;
  }

  /** The condition is needed: a packet that finds the queue full is missing from the
      stream, and what follows it is read in its place. */
  lemma RefusedChunkIsMissing(sent: seq<bytes>, base: string, session: string)
    requires session != [] && !Contains(session, '/') && |sent| == UPLOAD_QUEUE_SIZE + 2
    requires Short(sent, MAX_POST_BYTES) && sent[UPLOAD_QUEUE_SIZE] != [] && sent[UPLOAD_QUEUE_SIZE + 1] != []
    requires sent[UPLOAD_QUEUE_SIZE][0] != sent[UPLOAD_QUEUE_SIZE + 1][0]
    ensures forall e :: e in Overrun(sent, base, session) ==> Posted(e, sent, base, session)
    ensures !(Served(Overrun(sent, base, session), base, session).read <= Concat(sent))
  {
    hide *;
    OverrunReads(sent, base, session);
    OverrunIsGenuine(sent, base, session);
    GapShows(sent, UPLOAD_QUEUE_SIZE);
  }

  // ---------------------------------------------------------------- the end of the stream

  lemma EmptyRead(part: bytes, chunks: seq<bytes>, room: nat)
    requires room > 0 && (chunks != [] ==> chunks[0] != [])
    ensures ReadStep(part, chunks, room).0 == [] <==> part == [] && chunks == []
  {
  }

  /** No false end of stream: with requests from the client alone, no chunk in the queue is
      empty, so a read with room reports the end exactly when everything is read and the
      session is gone. */
  lemma NoFalseEnd(run: WriterRun, events: seq<Event>, base: string, session: string, room: nat)
    requires IsWriterRun(run) && session != [] && !Contains(session, '/')
    requires |LastWriter(run).sent| <= U64_LIMIT && room > 0
    requires forall e :: e in events ==> Posted(e, LastWriter(run).sent, base, session)
    ensures var s := Served(events, base, session);
            Polled(s.part, s.queue, room) == Some([]) <==> s.part == [] && s.queue.chunks == [] && !s.queue.senders
  {
    var sent, s := LastWriter(run).sent, Served(events, base, session);
    WriterExactlyOnce(run);
    ReleasedIsSent(sent, events, base, session);
    QueueIsReleased(events, base, session);
    hide Served, Posted, IsWriterRun, LastWriter, ReadStep, Conserved, Numbers;
    if s.queue.chunks != [] {
      var c := s.queue.chunks[0];
      assert c in s.queue.chunks && c in s.released && c in sent;
    }
    EmptyRead(s.part, s.queue.chunks, room);
  }
}
