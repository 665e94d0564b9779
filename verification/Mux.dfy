/** The Mux relay: frames from one client connection, spread over many upstreams. */
module Mux {
  import opened Bytes
  import opened Endpoints
  import opened MuxFrame

  const XUDP_SESSION_ID: nat := 0

  /** One upstream connection: the session it was opened for and what was written to it. */
  datatype Conn = Conn(id: nat, udp: bool, log: seq<bytes>)

  /** What the outside world does while a frame is handled: whether the upstream can be
      reached, how a write to it ends (`Some(k)`: it fails after `k` bytes), whether the
      client can be written to, whether the reader of a new session is over before the
      session is even entered, and whether an aborted reader is past the point where the
      abort stops it. */
  datatype Env = Env(connects: bool, writeFails: Option<nat>, replies: bool, readerGone: bool, lingers: bool)

  datatype Event =
    | Arrives(frame: Frame, env: Env)
    | ReaderExit(id: nat, conn: nat)

  /** `sessions` maps a session to its connection, `readers` a connection whose reader is
      still running to the session that reader will remove. */
  datatype State = State(
    sessions: map<nat, nat>, readers: map<nat, nat>, conns: seq<Conn>,
    cone: Option<Option<bytes>>, datagrams: seq<bytes>,
    ended: seq<nat>, counted: nat, failed: bool)

  const START := State(map[], map[], [], None, [], [], 0, false)

  predicate IsXudp(m: Meta) {
    m.sessionId == XUDP_SESSION_ID && m.network == Some(NETWORK_UDP)
  }

  function Data(f: Frame): bytes {
    if f.payload.Some? then f.payload.value else []
  }

  /** What a write leaves behind; an empty payload is not written. */
  function Written(log: seq<bytes>, udp: bool, data: bytes, env: Env): seq<bytes> {
    if data == [] then log
    else if env.writeFails.None? then log + [data]
    else if udp then log
    else log + [data[..Min(env.writeFails.value, |data|)]]
  }

  predicate WriteOk(data: bytes, env: Env) {
    data == [] || env.writeFails.None?
  }

  // ---------------------------------------------------------------- one event

  function Opened(s: State, f: Frame, udp: bool, env: Env): State {
    if !env.connects then s.(failed := true)
    else
      var id, c := f.meta.sessionId, |s.conns|;
      var conns := s.conns + [Conn(id, udp, Written([], udp, Data(f), env))];
      if !WriteOk(Data(f), env) then s.(conns := conns, failed := true)
      else s.(conns := conns, sessions := s.sessions[id := c],
              readers := if env.readerGone then s.readers else s.readers[c := id],
              counted := s.counted + |Data(f)|)
  }

  function EndSent(s: State, id: nat, env: Env): State {
    if env.replies then s.(ended := s.ended + [id]) else s.(failed := true)
  }

  function Forwarded(s: State, f: Frame, env: Env): State {
    var id := f.meta.sessionId;
    if id !in s.sessions then EndSent(s, id, env)
    else if s.sessions[id] >= |s.conns| then s
    else
      var c := s.sessions[id];
      var conn := s.conns[c];
      var conns := s.conns[c := conn.(log := Written(conn.log, conn.udp, Data(f), env))];
      if !WriteOk(Data(f), env) then s.(conns := conns, failed := true)
      else s.(conns := conns, counted := s.counted + |Data(f)|)
  }

  /** The reader is aborted, but one that is about to leave may still do so later. */
  function Ended(s: State, id: nat, env: Env): State {
    if id in s.sessions then
      s.(sessions := s.sessions - {id}, readers := if env.lingers then s.readers else s.readers - {s.sessions[id]})
    else s
  }

  function XudpSent(s: State, f: Frame, globalId: Option<bytes>, env: Env): State {
    if s.cone.None? && !env.connects then s.(failed := true)
    else
      var cone := if s.cone.None? then Some(globalId) else if globalId.Some? then Some(globalId) else s.cone;
      if Data(f) == [] then s.(cone := cone)
      else if env.writeFails.Some? then s.(cone := cone, failed := true)
      else s.(cone := cone, datagrams := s.datagrams + [Data(f)], counted := s.counted + |Data(f)|)
  }

  function XudpHandled(s: State, f: Frame, env: Env): State {
    var m := f.meta;
    if m.status == STATUS_NEW then
      if m.target.None? then s.(failed := true) else XudpSent(s, f, m.globalId, env)
    else if m.status == STATUS_KEEP then
      if m.target.None? then s else XudpSent(s, f, None, env)
    else if m.status == STATUS_END then s.(cone := None)
    else if m.status == STATUS_KEEP_ALIVE then s
    else s.(failed := true)
  }

  function Handled(s: State, f: Frame, env: Env): State {
    var m := f.meta;
    if IsXudp(m) then XudpHandled(s, f, env)
    else if m.status == STATUS_NEW then
      if m.target.None? then s.(failed := true)
      else
        var network := if m.network.Some? then m.network.value else NETWORK_TCP;
        if network == NETWORK_TCP || network == NETWORK_UDP then Opened(s, f, network == NETWORK_UDP, env)
        else EndSent(s, m.sessionId, env)
    else if m.status == STATUS_KEEP then Forwarded(s, f, env)
    else if m.status == STATUS_END then Ended(s, m.sessionId, env)
    else if m.status == STATUS_KEEP_ALIVE then s
    else s.(failed := true)
  }

  function Step(s: State, e: Event): State {
    match e
    case Arrives(f, env) => Handled(s, f, env)
    case ReaderExit(id, conn) => s.(sessions := s.sessions - {id}, readers := s.readers - {conn})
  }

  /** A relay that failed handles nothing more; only running readers exit. */
  predicate Possible(s: State, e: Event) {
    !s.failed && (e.ReaderExit? ==> e.conn in s.readers && s.readers[e.conn] == e.id)
  }

  predicate InRange(s: State) {
    forall id :: id in s.sessions ==> s.sessions[id] < |s.conns|
  }

  // ---------------------------------------------------------------- the relay

  class Relay {
    var sessions: map<nat, nat>
    var readers: map<nat, nat>
    var conns: seq<Conn>
    var cone: Option<Option<bytes>>
    var datagrams: seq<bytes>
    var ended: seq<nat>
    var clientToUpstream: nat
    var failed: bool

    constructor ()
      ensures View() == START
    {
      sessions, readers, conns, cone, datagrams, ended := map[], map[], [], None, [], [];
      clientToUpstream, failed := 0, false;
    }

    function View(): State
      reads this
    {
      State(sessions, readers, conns, cone, datagrams, ended, clientToUpstream, failed)
    }

    predicate Valid()
      reads this
    {
      InRange(View())
    }

    method WriteTo(c: nat, data: bytes, env: Env) returns (ok: bool)
      requires c < |conns|
      modifies this`conns
      ensures conns == old(conns)[c := old(conns[c]).(log := Written(old(conns[c]).log, old(conns[c]).udp, data, env))]
      ensures ok == WriteOk(data, env)
    {
      var conn := conns[c];
      if data == [] {
        return true;
      }
      if env.writeFails.None? {
        conns := conns[c := conn.(log := conn.log + [data])];
        return true;
      }
      if !conn.udp {
        conns := conns[c := conn.(log := conn.log + [data[..Min(env.writeFails.value, |data|)]])];
      }
      ok := false;
    }

    method OpenSession(frame: Frame, udp: bool, env: Env) returns (ok: bool)
      requires Valid()
      modifies this
      ensures Valid() && View() == Opened(old(View()), frame, udp, env).(failed := old(failed))
      ensures ok <==> env.connects && WriteOk(Data(frame), env)
    {
      hide Written, WriteOk, Data;
      if !env.connects {
        return false;
      }
      var id, conn := frame.meta.sessionId, |conns|;
      var data := Data(frame);
      conns := conns + [Conn(id, udp, [])];
      ok := WriteTo(conn, data, env);
      if !ok {
        return;
      }
      if data != [] {
        clientToUpstream := clientToUpstream + |data|;
      }
      if !env.readerGone {
        readers := readers[conn := id];
      }
      sessions := sessions[id := conn];
    }

    method ForwardKeep(frame: Frame, env: Env) returns (ok: bool)
      requires Valid()
      modifies this
      ensures Valid() && View() == Forwarded(old(View()), frame, env).(failed := old(failed))
      ensures ok <==> if frame.meta.sessionId in old(sessions) then WriteOk(Data(frame), env) else env.replies
    {
      var id := frame.meta.sessionId;
      if id !in sessions {
        ok := env.replies;
        if ok {
          ended := ended + [id];
        }
        return;
      }
      var data := Data(frame);
      ok := WriteTo(sessions[id], data, env);
      if ok && data != [] {
        clientToUpstream := clientToUpstream + |data|;
      }
    }

    method HandleXudp(frame: Frame, env: Env) returns (ok: bool)
      requires Valid()
      modifies this
      ensures Valid() && View() == XudpHandled(old(View()), frame, env).(failed := old(failed))
      ensures !old(failed) ==> (ok <==> !XudpHandled(old(View()), frame, env).failed)
    {
      hide Data;
      var m := frame.meta;
      if m.status == STATUS_NEW || (m.status == STATUS_KEEP && m.target.Some?) {
        if m.target.None? {
          return false;
        }
        var globalId := if m.status == STATUS_NEW then m.globalId else None;
        if cone.None? {
          if !env.connects {
            return false;
          }
          cone := Some(globalId);
        } else if globalId.Some? {
          cone := Some(globalId);
        }
        var data := Data(frame);
        if data != [] {
          if env.writeFails.Some? {
            return false;
          }
          datagrams := datagrams + [data];
          clientToUpstream := clientToUpstream + |data|;
        }
        return true;
      }
      if m.status == STATUS_END {
        cone := None;
      }
      ok := m.status == STATUS_KEEP || m.status == STATUS_END || m.status == STATUS_KEEP_ALIVE;
    }

    /** One event, as the loop of the relay takes it. */
    method Handle(e: Event)
      requires Valid() && Possible(View(), e)
      modifies this
      ensures Valid() && View() == Step(old(View()), e)
    {
      match e
      case ReaderExit(id, conn) =>
        sessions := sessions - {id};
        readers := readers - {conn};
      case Arrives(frame, env) =>
        var m := frame.meta;
        var ok := true;
        if IsXudp(m) {
          ok := HandleXudp(frame, env);
        } else if m.status == STATUS_NEW {
          var network := if m.network.Some? then m.network.value else NETWORK_TCP;
          if m.target.None? {
            ok := false;
          } else if network == NETWORK_TCP || network == NETWORK_UDP {
            ok := OpenSession(frame, network == NETWORK_UDP, env);
          } else {
            ok := env.replies;
            if ok {
              ended := ended + [m.sessionId];
            }
          }
        } else if m.status == STATUS_KEEP {
          ok := ForwardKeep(frame, env);
        } else if m.status == STATUS_END {
          if m.sessionId in sessions {
            if !env.lingers {
              readers := readers - {sessions[m.sessionId]};
            }
            sessions := sessions - {m.sessionId};
          }
        } else if m.status != STATUS_KEEP_ALIVE {
          ok := false;
        }
        if !ok {
          failed := true;
        }
    }
  }

  // ---------------------------------------------------------------- runs

  datatype Run = Start | Then(prev: Run, event: Event)

  function Last(run: Run): State {
    if run.Start? then START else Step(Last(run.prev), run.event)
  }

  predicate IsRun(run: Run) {
    run.Then? ==> IsRun(run.prev) && Possible(Last(run.prev), run.event)
  }

  // ---------------------------------------------------------------- one session on its own

  /** All connections ever made for one session, and whether the last one is in use. */
  datatype Slot = Slot(conns: seq<Conn>, open: bool)

  /** What an event means for session `x` alone. Events of other sessions and of XUDP mean
      nothing to it. */
  function SlotStep(slot: Slot, e: Event, x: nat): Slot {
    match e
    case ReaderExit(id, _) => if id == x then slot.(open := false) else slot
    case Arrives(f, env) =>
      var m := f.meta;
      if m.sessionId != x || IsXudp(m) then slot
      else if m.status == STATUS_NEW then
        var network := if m.network.Some? then m.network.value else NETWORK_TCP;
        if m.target.Some? && (network == NETWORK_TCP || network == NETWORK_UDP) && env.connects then
          var udp := network == NETWORK_UDP;
          Slot(slot.conns + [Conn(x, udp, Written([], udp, Data(f), env))], slot.open || WriteOk(Data(f), env))
        else slot
      else if m.status == STATUS_KEEP && slot.open && slot.conns != [] then
        var k := |slot.conns| - 1;
        var conn := slot.conns[k];
        slot.(conns := slot.conns[..k] + [conn.(log := Written(conn.log, conn.udp, Data(f), env))])
      else if m.status == STATUS_END then slot.(open := false)
      else slot
  }

  function SlotOf(run: Run, x: nat): Slot {
    if run.Start? then Slot([], false) else SlotStep(SlotOf(run.prev, x), run.event, x)
  }

  // ---------------------------------------------------------------- demultiplexing

  /** Connections of session `x`, oldest first. */
  function Of(conns: seq<Conn>, x: nat): seq<Conn> {
    if conns == [] then []
    else
      var k := |conns| - 1;
      Of(conns[..k], x) + if conns[k].id == x then [conns[k]] else []
  }

  predicate IsLast(conns: seq<Conn>, i: nat, x: nat) {
    i < |conns| && conns[i].id == x && forall j :: i < j < |conns| ==> conns[j].id != x
  }

  lemma OfAppend(conns: seq<Conn>, c: Conn, x: nat)
    ensures Of(conns + [c], x) == Of(conns, x) + if c.id == x then [c] else []
  {
    assert (conns + [c])[..|conns|] == conns;
  }

  lemma {:induction false} OfUpdateOther(conns: seq<Conn>, i: nat, c: Conn, x: nat)
    requires i < |conns| && conns[i].id == c.id != x
    ensures Of(conns[i := c], x) == Of(conns, x)
  {
    var k := |conns| - 1;
    if i == k {
      assert conns[i := c][..k] == conns[..k];
    } else {
      assert conns[i := c][..k] == conns[..k][i := c];
      OfUpdateOther(conns[..k], i, c, x);
    }
  }

  lemma {:induction false} OfUpdateLast(conns: seq<Conn>, i: nat, c: Conn, x: nat)
    requires IsLast(conns, i, x) && c.id == x
    ensures var o := Of(conns, x);
            o != [] && o[|o| - 1] == conns[i] && Of(conns[i := c], x) == o[..|o| - 1] + [c]
  {
    var k := |conns| - 1;
    if i == k {
      assert conns[i := c][..k] == conns[..k];
    } else {
      assert conns[i := c][..k] == conns[..k][i := c];
      OfUpdateLast(conns[..k], i, c, x);
    }
  }

  /** Every session uses its latest connection, and every reader will remove the session
      its connection was opened for. */
  ghost predicate Latest(s: State) {
    && (forall id :: id in s.sessions ==> IsLast(s.conns, s.sessions[id], id))
    && (forall c :: c in s.readers ==> c < |s.conns| && s.conns[c].id == s.readers[c])
  }

  /** The frame opens a connection. */
  predicate Opens(f: Frame, env: Env) {
    var network := if f.meta.network.Some? then f.meta.network.value else NETWORK_TCP;
    && !IsXudp(f.meta) && f.meta.status == STATUS_NEW && f.meta.target.Some?
    && (network == NETWORK_TCP || network == NETWORK_UDP)
    && env.connects && WriteOk(Data(f), env)
  }

  lemma OthersStayLast(conns: seq<Conn>, i: nat, x: nat, c: Conn)
    requires IsLast(conns, i, x) && c.id != x
    ensures IsLast(conns + [c], i, x)
  {
  }

  lemma OpenKeepsLatest(s: State, f: Frame, udp: bool, env: Env)
    requires Latest(s) && env.connects && WriteOk(Data(f), env)
    ensures Latest(Opened(s, f, udp, env))
  {
    var id, t := f.meta.sessionId, Opened(s, f, udp, env);
    forall x | x in s.sessions && x != id
      ensures IsLast(t.conns, t.sessions[x], x)
    {
      OthersStayLast(s.conns, s.sessions[x], x, t.conns[|s.conns|]);
    }
  }

  /** Logs do not matter to who is where. */
  lemma LogsAreApart(s: State, t: State, c: nat, log: seq<bytes>)
    requires Latest(s) && t.sessions == s.sessions && t.readers == s.readers
    requires c < |s.conns| && t.conns == s.conns[c := s.conns[c].(log := log)]
    ensures Latest(t)
  {
    assert |t.conns| == |s.conns| && forall i :: 0 <= i < |s.conns| ==> t.conns[i].id == s.conns[i].id;
    forall x | x in t.sessions
      ensures IsLast(t.conns, t.sessions[x], x)
    {
      assert IsLast(s.conns, s.sessions[x], x);
    }
  }

  lemma LatestDependsOn(s: State, t: State)
    requires Latest(s) && t.sessions == s.sessions && t.readers == s.readers && t.conns == s.conns
    ensures Latest(t)
  {
  }

  lemma ForwardKeepsLatest(s: State, f: Frame, env: Env)
    requires Latest(s)
    ensures Latest(Forwarded(s, f, env))
  {
    hide Latest, Written, WriteOk, Data;
    var id, t := f.meta.sessionId, Forwarded(s, f, env);
    if id in s.sessions && s.sessions[id] < |s.conns| {
      var conn := s.conns[s.sessions[id]];
      LogsAreApart(s, t, s.sessions[id], Written(conn.log, conn.udp, Data(f), env));
    } else {
      LatestDependsOn(s, t);
    }
  }

  lemma RemoveKeepsLatest(s: State, ids: set<nat>, cs: set<nat>)
    requires Latest(s)
    ensures Latest(s.(sessions := s.sessions - ids, readers := s.readers - cs))
  {
  }

  lemma StepKeepsLatest(s: State, e: Event)
    requires Latest(s) && Possible(s, e) && !Step(s, e).failed
    ensures Latest(Step(s, e))
  {
    hide Latest;
    match e
    case ReaderExit(id, c) =>
      RemoveKeepsLatest(s, {id}, {c});
    case Arrives(f, env) =>
      if IsXudp(f.meta) {
        LatestDependsOn(s, Step(s, e));
      } else if Opens(f, env) {
        OpenKeepsLatest(s, f, f.meta.network == Some(NETWORK_UDP), env);
      } else if f.meta.status == STATUS_KEEP {
        ForwardKeepsLatest(s, f, env);
      } else if f.meta.status == STATUS_END && f.meta.sessionId in s.sessions {
        RemoveKeepsLatest(s, {f.meta.sessionId}, if env.lingers then {} else {s.sessions[f.meta.sessionId]});
        assert s.readers - {} == s.readers;
      } else {
        LatestDependsOn(s, Step(s, e));
      }
  }

  /** The relay agrees with the session seen on its own. */
  ghost predicate Agrees(s: State, slot: Slot, x: nat) {
    Of(s.conns, x) == slot.conns && (x in s.sessions <==> slot.open)
  }

  /** Another log for the latest connection of a session, seen from session `x`. */
  lemma LogAgrees(s: State, t: State, slot: Slot, x: nat, id: nat, log: seq<bytes>)
    requires Latest(s) && Agrees(s, slot, x) && id in s.sessions && t.sessions == s.sessions
    requires s.sessions[id] < |s.conns| && t.conns == s.conns[s.sessions[id] := s.conns[s.sessions[id]].(log := log)]
    ensures id != x ==> Agrees(t, slot, x)
    ensures id == x ==>
              && slot.open && slot.conns != [] && slot.conns[|slot.conns| - 1] == s.conns[s.sessions[id]]
              && Agrees(t, slot.(conns := slot.conns[..|slot.conns| - 1] + [s.conns[s.sessions[id]].(log := log)]), x)
  {
    var c := s.sessions[id];
    assert IsLast(s.conns, c, id);
    hide Latest, Of;
    if id == x {
      OfUpdateLast(s.conns, c, s.conns[c].(log := log), x);
    } else {
      OfUpdateOther(s.conns, c, s.conns[c].(log := log), x);
    }
  }

  lemma ForwardAgrees(s: State, slot: Slot, f: Frame, env: Env, x: nat)
    requires Latest(s) && Agrees(s, slot, x) && f.meta.status == STATUS_KEEP && !IsXudp(f.meta)
    ensures Agrees(Forwarded(s, f, env), SlotStep(slot, Arrives(f, env), x), x)
  {
    var id, t := f.meta.sessionId, Forwarded(s, f, env);
    if id in s.sessions {
      assert IsLast(s.conns, s.sessions[id], id);
      var conn := s.conns[s.sessions[id]];
      hide Latest, Written, WriteOk, Data, Of;
      LogAgrees(s, t, slot, x, id, Written(conn.log, conn.udp, Data(f), env));
    }
  }

  lemma OpenAgrees(s: State, slot: Slot, f: Frame, env: Env, x: nat)
    requires Agrees(s, slot, x) && f.meta.status == STATUS_NEW && !IsXudp(f.meta)
    ensures Agrees(Handled(s, f, env), SlotStep(slot, Arrives(f, env), x), x)
  {
    hide Written, Of, Data;
    var udp := f.meta.network == Some(NETWORK_UDP);
    OfAppend(s.conns, Conn(f.meta.sessionId, udp, Written([], udp, Data(f), env)), x);
    assert slot.conns + [] == slot.conns;
  }

  /** XUDP frames leave the sessions alone. */
  lemma XudpIsApart(s: State, f: Frame, env: Env)
    ensures var t := XudpHandled(s, f, env);
            t.sessions == s.sessions && t.readers == s.readers && t.conns == s.conns
  {
  }

  lemma StepAgrees(s: State, slot: Slot, e: Event, x: nat)
    requires Latest(s) && Agrees(s, slot, x) && Possible(s, e)
    ensures Agrees(Step(s, e), SlotStep(slot, e, x), x)
  {
    if e.Arrives? {
      var f, env := e.frame, e.env;
      XudpIsApart(s, f, env);
      if !IsXudp(f.meta) && f.meta.status == STATUS_KEEP {
        ForwardAgrees(s, slot, f, env, x);
      } else if !IsXudp(f.meta) && f.meta.status == STATUS_NEW {
        OpenAgrees(s, slot, f, env, x);
      }
      hide Latest, Forwarded, Opened, XudpHandled, Of, Written, Data;
    }
  }

  /** Demultiplexing: in every run, the connections of a session hold exactly what that
      session's own events put there, whatever the other sessions and XUDP do in between. */
  lemma {:induction false} Demultiplexing(run: Run, x: nat)
    requires IsRun(run)
    ensures Agrees(Last(run), SlotOf(run, x), x)
    ensures !Last(run).failed ==> Latest(Last(run))
  {
    if run.Then? {
      Demultiplexing(run.prev, x);
      StepAgrees(Last(run.prev), SlotOf(run.prev, x), run.event, x);
      if !Last(run).failed {
        StepKeepsLatest(Last(run.prev), run.event);
      }
    }
  }

  // ---------------------------------------------------------------- what a connection is sent

  function Extended(run: Run, events: seq<Event>): Run {
    if events == [] then run else Then(Extended(run, events[..|events| - 1]), events[|events| - 1])
  }

  predicate IsKeep(e: Event, x: nat) {
    e.Arrives? && !IsXudp(e.frame.meta) && e.frame.meta.sessionId == x && e.frame.meta.status == STATUS_KEEP
  }

  /** The frame, if it is one, neither opens nor ends session `x`. */
  predicate FrameLeaves(e: Event, x: nat) {
    e.Arrives? && e.frame.meta.sessionId == x && !IsXudp(e.frame.meta) ==>
      e.frame.meta.status != STATUS_NEW && e.frame.meta.status != STATUS_END
  }

  /** The event neither opens nor ends session `x`, nor is it the exit of any of its readers. */
  predicate Leaves(e: Event, x: nat) {
    FrameLeaves(e, x) && (e.ReaderExit? ==> e.id != x)
  }

  function NonEmpty(data: bytes): seq<bytes> {
    if data == [] then [] else [data]
  }

  /** The payloads of the `Keep` frames of session `x`, in order. */
  function Keeps(events: seq<Event>, x: nat): seq<bytes> {
    if events == [] then []
    else
      var k := |events| - 1;
      Keeps(events[..k], x) + if IsKeep(events[k], x) then NonEmpty(Data(events[k].frame)) else []
  }

  function LastLog(slot: Slot): seq<bytes>
    requires slot.conns != []
  {
    slot.conns[|slot.conns| - 1].log
  }

  /** In a live relay a `Keep` for a session it has was written in full. */
  lemma KeepWasWritten(s: State, e: Event, x: nat)
    requires Latest(s) && x in s.sessions && IsKeep(e, x) && !Step(s, e).failed
    ensures WriteOk(Data(e.frame), e.env)
  {
    assert IsLast(s.conns, s.sessions[x], x);
  }

  lemma KeepGrowsLog(slot: Slot, e: Event, x: nat)
    requires slot.open && slot.conns != [] && Leaves(e, x)
    requires IsKeep(e, x) ==> WriteOk(Data(e.frame), e.env)
    ensures var t := SlotStep(slot, e, x);
            && t.open && t.conns != []
            && LastLog(t) == LastLog(slot) + if IsKeep(e, x) then NonEmpty(Data(e.frame)) else []
  {
  }

  lemma SnocAssociates(a: seq<bytes>, b: seq<bytes>, c: seq<bytes>)
    ensures (a + b) + c == a + (b + c)
  {
  }

  lemma {:induction false} KeepsAreForwarded(run: Run, events: seq<Event>, x: nat)
    requires IsRun(Extended(run, events)) && !Last(Extended(run, events)).failed
    requires SlotOf(run, x).open && SlotOf(run, x).conns != []
    requires forall e :: e in events ==> Leaves(e, x)
    ensures var slot := SlotOf(Extended(run, events), x);
            slot.open && slot.conns != [] && LastLog(slot) == LastLog(SlotOf(run, x)) + Keeps(events, x)
  {
    if events != [] {
      var k := |events| - 1;
      var e, before := events[k], Extended(run, events[..k]);
      KeepsAreForwarded(run, events[..k], x);
      Demultiplexing(before, x);
      assert e in events && x in Last(before).sessions && !Last(before).failed;
      hide Latest, Agrees, Leaves, IsKeep, WriteOk, Step, SlotStep, LastLog, NonEmpty, Data, Possible;
      if IsKeep(e, x) {
        KeepWasWritten(Last(before), e, x);
      }
      KeepGrowsLog(SlotOf(before, x), e, x);
      SnocAssociates(LastLog(SlotOf(run, x)), Keeps(events[..k], x), if IsKeep(e, x) then NonEmpty(Data(e.frame)) else []);
    }
  }

  lemma OpensSlot(slot: Slot, f: Frame, env: Env)
    requires Opens(f, env)
    ensures var t := SlotStep(slot, Arrives(f, env), f.meta.sessionId);
            t.open && t.conns != [] && LastLog(t) == NonEmpty(Data(f))
  {
  }

  /** From the `New` that opens it and for as long as nothing ends or replaces it and none
      of its readers, old or new, exits, a session's connection has been sent the payload
      of the `New` and those of the later `Keep` frames, in order and nothing else. */
  lemma SessionStream(run: Run, f: Frame, env: Env, events: seq<Event>)
    requires Opens(f, env) && (forall e :: e in events ==> Leaves(e, f.meta.sessionId))
    requires var after := Extended(Then(run, Arrives(f, env)), events);
             IsRun(after) && !Last(after).failed
    ensures var x, s := f.meta.sessionId, Last(Extended(Then(run, Arrives(f, env)), events));
            && x in s.sessions && s.sessions[x] < |s.conns|
            && s.conns[s.sessions[x]].log == NonEmpty(Data(f)) + Keeps(events, x)
  {
    var x, start := f.meta.sessionId, Then(run, Arrives(f, env));
    var after := Extended(start, events);
    OpensSlot(SlotOf(run, x), f, env);
    KeepsAreForwarded(start, events, x);
    Demultiplexing(after, x);
    var s := Last(after);
    assert IsLast(s.conns, s.sessions[x], x);
    OfUpdateLast(s.conns, s.sessions[x], s.conns[s.sessions[x]], x);
  }

  predicate IsNew(e: Event, x: nat) {
    e.Arrives? && e.frame.meta.sessionId == x && e.frame.meta.status == STATUS_NEW
  }

  lemma ClosedSlotStays(slot: Slot, e: Event, x: nat)
    requires !slot.open && !IsNew(e, x)
    ensures SlotStep(slot, e, x) == slot
  {
  }

  /** A session that is gone stays gone, and its connections stay as they are, until a `New`
      for it arrives: late `Keep` frames and the exits of old readers change nothing. */
  lemma {:induction false} EndedStays(run: Run, events: seq<Event>, x: nat)
    requires IsRun(Extended(run, events))
    requires x !in Last(run).sessions && (forall e :: e in events ==> !IsNew(e, x))
    ensures var s := Last(Extended(run, events));
            x !in s.sessions && Of(s.conns, x) == Of(Last(run).conns, x)
  {
    if events != [] {
      var k := |events| - 1;
      var before := Extended(run, events[..k]);
      EndedStays(run, events[..k], x);
      Demultiplexing(before, x);
      Demultiplexing(Then(before, events[k]), x);
      assert events[k] in events;
      ClosedSlotStays(SlotOf(before, x), events[k], x);
      hide Latest, Step, SlotStep, Of, IsNew;
    }
  }

  // ---------------------------------------------------------------- survival

  /** No running reader will remove session `x`. */
  predicate NoReaderOf(s: State, x: nat) {
    forall c :: c in s.readers ==> s.readers[c] != x
  }

  /** The event neither opens nor ends session `x`, nor is it the exit of the reader of
      connection `c`. */
  predicate Spares(e: Event, x: nat, c: nat) {
    FrameLeaves(e, x) && (e.ReaderExit? ==> e.conn != c)
  }

  /** `events` follow the `New` in a run that stays alive, and none of them is a reason for
      the session to end: no `New` or `End` for it, and no exit of its own reader. */
  ghost predicate Continues(run: Run, f: Frame, env: Env, events: seq<Event>) {
    var after := Extended(Then(run, Arrives(f, env)), events);
    && IsRun(after) && !Last(after).failed
    && (forall e :: e in events ==> Spares(e, f.meta.sessionId, |Last(run).conns|))
  }

  /** The session is still there, on the connection the `New` opened, and that connection
      was sent everything meant for it. */
  ghost predicate Carries(run: Run, f: Frame, env: Env, events: seq<Event>) {
    var x, c, s := f.meta.sessionId, |Last(run).conns|, Last(Extended(Then(run, Arrives(f, env)), events));
    && x in s.sessions && s.sessions[x] == c < |s.conns|
    && s.conns[c].log == NonEmpty(Data(f)) + Keeps(events, x)
  }

  /** Connection `c` is where session `x` is, and no other reader will remove it. */
  ghost predicate Alone(s: State, x: nat, c: nat) {
    x in s.sessions && s.sessions[x] == c && forall d :: d in s.readers && s.readers[d] == x ==> d == c
  }

  predicate IsEnd(e: Event) {
    e.Arrives? && !IsXudp(e.frame.meta) && e.frame.meta.status == STATUS_END
  }

  lemma OpensIs(s: State, f: Frame, env: Env)
    requires Opens(f, env)
    ensures var c, t := |s.conns|, Step(s, Arrives(f, env));
            && t == Opened(s, f, f.meta.network == Some(NETWORK_UDP), env) && !IsXudp(f.meta) && f.meta.status == STATUS_NEW
            && env.connects && WriteOk(Data(f), env)
            && |t.conns| == c + 1 && t.sessions == s.sessions[f.meta.sessionId := c]
            && t.readers == if env.readerGone then s.readers else s.readers[c := f.meta.sessionId]
  {
    hide Written, Data, WriteOk;
  }

  /** Frames that neither open nor end a session leave all sessions and readers where they are. */
  lemma QuietStep(s: State, e: Event)
    requires e.Arrives? && !Opens(e.frame, e.env) && !IsEnd(e)
    ensures var t := Step(s, e);
            t.sessions == s.sessions && t.readers == s.readers && |t.conns| >= |s.conns|
  {
    XudpIsApart(s, e.frame, e.env);
    hide XudpHandled, Written, Data, WriteOk;
  }

  lemma OpensAlone(s: State, f: Frame, env: Env)
    requires Opens(f, env) && NoReaderOf(s, f.meta.sessionId)
    ensures Alone(Step(s, Arrives(f, env)), f.meta.sessionId, |s.conns|)
  {
  }

  lemma StepKeepsAlone(s: State, e: Event, x: nat, c: nat)
    requires Alone(s, x, c) && Possible(s, e) && Spares(e, x, c) && Latest(s) && c < |s.conns|
    ensures Alone(Step(s, e), x, c) && Leaves(e, x) && |Step(s, e).conns| >= |s.conns|
  {
    if e.Arrives? && Opens(e.frame, e.env) {
      OpensIs(s, e.frame, e.env);
      hide Step, Latest, Opens;
    } else if e.Arrives? && !IsEnd(e) {
      QuietStep(s, e);
      hide Step, Latest;
    } else if e.Arrives? {
      var id := e.frame.meta.sessionId;
      if id in s.sessions {
        assert IsLast(s.conns, s.sessions[id], id) && IsLast(s.conns, c, x);
      }
      hide Latest;
    }
  }

  /** With no other reader around, an event that spares the session leaves it. */
  lemma {:induction false} SparedIsLeft(run: Run, events: seq<Event>, x: nat, c: nat)
    requires IsRun(Extended(run, events)) && Alone(Last(run), x, c) && c < |Last(run).conns|
    requires forall e :: e in events ==> Spares(e, x, c)
    ensures Alone(Last(Extended(run, events)), x, c) && c < |Last(Extended(run, events)).conns|
    ensures forall e :: e in events ==> Leaves(e, x)
  {
    if events != [] {
      var k := |events| - 1;
      var before := Extended(run, events[..k]);
      SparedIsLeft(run, events[..k], x, c);
      Demultiplexing(before, x);
      assert events[k] in events;
      hide Latest, Alone, Spares, Leaves, Step, Possible;
      StepKeepsAlone(Last(before), events[k], x, c);
    }
  }

  /** A session opened while no reader of that session runs survives everything but its own
      end, and its connection carries its whole stream. */
  lemma SessionSurvives(run: Run, f: Frame, env: Env, events: seq<Event>)
    requires Opens(f, env) && Continues(run, f, env, events) && NoReaderOf(Last(run), f.meta.sessionId)
    ensures Carries(run, f, env, events)
  {
    var x, c, start := f.meta.sessionId, |Last(run).conns|, Then(run, Arrives(f, env));
    OpensAlone(Last(run), f, env);
    SparedIsLeft(start, events, x, c);
    SessionStream(run, f, env, events);
  }

  /** If a reader of the session still runs when it is opened, that reader's exit takes the
      new session away, although its own reader goes on. */
  lemma OldReaderEnds(run: Run, f: Frame, env: Env, d: nat)
    requires IsRun(run) && !Last(run).failed && Opens(f, env)
    requires d in Last(run).readers && Last(run).readers[d] == f.meta.sessionId
    ensures var exit := ReaderExit(f.meta.sessionId, d);
            Continues(run, f, env, [exit]) && !Carries(run, f, env, [exit])
  {
    var s, x := Last(run), f.meta.sessionId;
    var start, exit := Then(run, Arrives(f, env)), ReaderExit(x, d);
    Demultiplexing(run, x);
    assert d < |s.conns|;
    assert [exit][..0] == [];
    assert Extended(start, [exit]) == Then(start, exit);
    assert Last(start) == Opened(s, f, f.meta.network == Some(NETWORK_UDP), env);
    assert IsRun(start) && Possible(Last(start), exit);
    assert x !in Last(Then(start, exit)).sessions;
  }

  /** Exactly then: every continuation keeps the session and its stream if and only if no
      reader of that session was running when the `New` opened it. */
  lemma SurvivesExactly(run: Run, f: Frame, env: Env)
    requires IsRun(run) && !Last(run).failed && Opens(f, env)
    ensures NoReaderOf(Last(run), f.meta.sessionId) <==>
            forall events :: Continues(run, f, env, events) ==> Carries(run, f, env, events)
  {
    var s, x := Last(run), f.meta.sessionId;
    if NoReaderOf(s, x) {
      forall events | Continues(run, f, env, events)
        ensures Carries(run, f, env, events)
      {
        SessionSurvives(run, f, env, events);
      }
    } else {
      var d :| d in s.readers && s.readers[d] == x;
      OldReaderEnds(run, f, env, d);
    }
  }

  // ---------------------------------------------------------------- take-overs

  /** A `New` takes over a session whose reader is still running. */
  predicate TakesOver(s: State, e: Event) {
    && e.Arrives? && Opens(e.frame, e.env)
    && e.frame.meta.sessionId in s.sessions
    && s.sessions[e.frame.meta.sessionId] in s.readers
  }

  /** An `End` leaves a reader behind that will still run its exit. */
  predicate LeavesBehind(s: State, e: Event) {
    && e.Arrives? && !IsXudp(e.frame.meta) && e.frame.meta.status == STATUS_END && e.env.lingers
    && e.frame.meta.sessionId in s.sessions
    && s.sessions[e.frame.meta.sessionId] in s.readers
  }

  /** No session was taken over, and no reader outlived its session. */
  predicate Tidy(run: Run) {
    run.Then? ==> Tidy(run.prev) && !TakesOver(Last(run.prev), run.event) && !LeavesBehind(Last(run.prev), run.event)
  }

  /** Every running reader will remove the session whose connection it reads. */
  ghost predicate Owned(s: State) {
    forall c :: c in s.readers ==> s.readers[c] in s.sessions && s.sessions[s.readers[c]] == c
  }

  lemma RemoveKeepsOwned(s: State, id: nat, c: nat)
    requires Owned(s) && id in s.sessions && s.sessions[id] == c
    ensures Owned(s.(sessions := s.sessions - {id}, readers := s.readers - {c}))
  {
    forall d | d in s.readers && d != c
      ensures s.readers[d] != id
    {
    }
  }

  lemma OpenKeepsOwned(s: State, f: Frame, udp: bool, env: Env)
    requires Owned(s) && Latest(s) && env.connects && WriteOk(Data(f), env)
    ensures var id := f.meta.sessionId;
            Owned(Opened(s, f, udp, env)) <==> !(id in s.sessions && s.sessions[id] in s.readers)
  {
    var id, t := f.meta.sessionId, Opened(s, f, udp, env);
    if id in s.sessions && s.sessions[id] in s.readers {
      var c := s.sessions[id];
      assert IsLast(s.conns, c, id);
      assert c in t.readers && t.readers[c] == id && t.sessions[id] != c;
    } else {
      assert forall c :: c in s.readers ==> s.readers[c] != id;
    }
  }

  lemma EndKeepsOwned(s: State, id: nat, env: Env)
    requires Owned(s) && Latest(s) && id in s.sessions
    ensures Owned(Ended(s, id, env)) <==> !(env.lingers && s.sessions[id] in s.readers)
  {
    var c := s.sessions[id];
    assert IsLast(s.conns, c, id);
    if !env.lingers {
      RemoveKeepsOwned(s, id, c);
    } else if c in s.readers {
      assert s.readers[c] == id;
    } else {
      assert forall d :: d in s.readers ==> s.readers[d] != id;
    }
  }

  /** One step keeps every reader with its own session exactly when it is not a take-over
      and leaves no reader behind. */
  lemma StepKeepsOwned(s: State, e: Event)
    requires Owned(s) && Latest(s) && Possible(s, e) && !Step(s, e).failed
    ensures Owned(Step(s, e)) <==> !TakesOver(s, e) && !LeavesBehind(s, e)
  {
    if e.ReaderExit? {
      RemoveKeepsOwned(s, e.id, e.conn);
    } else if Opens(e.frame, e.env) {
      OpensIs(s, e.frame, e.env);
      hide Step, Latest, Owned, Opened, Opens;
      OpenKeepsOwned(s, e.frame, e.frame.meta.network == Some(NETWORK_UDP), e.env);
    } else if IsEnd(e) {
      if e.frame.meta.sessionId in s.sessions {
        hide Owned, Latest;
        EndKeepsOwned(s, e.frame.meta.sessionId, e.env);
      }
    } else {
      QuietStep(s, e);
      hide Step, Latest;
    }
  }

  lemma {:induction false} AlwaysOwned(run: Run)
    requires IsRun(run) && Tidy(run) && !Last(run).failed
    ensures Owned(Last(run))
  {
    if run.Then? {
      AlwaysOwned(run.prev);
      Demultiplexing(run.prev, 0);
      StepKeepsOwned(Last(run.prev), run.event);
    }
  }

  /** In a tidy run a `New` meets the condition exactly when it is not a take-over. */
  lemma TidyMeansNoReader(run: Run, f: Frame, env: Env)
    requires IsRun(run) && Tidy(run) && !Last(run).failed && Opens(f, env)
    ensures NoReaderOf(Last(run), f.meta.sessionId) <==> !TakesOver(Last(run), Arrives(f, env))
  {
    AlwaysOwned(run);
    Demultiplexing(run, f.meta.sessionId);
    var s, x := Last(run), f.meta.sessionId;
    if x in s.sessions {
      assert IsLast(s.conns, s.sessions[x], x);
    }
  }

  /** A reader exits whose connection is not the latest of its session. */
  predicate StaleExit(s: State, e: Event) {
    e.ReaderExit? && !IsLast(s.conns, e.conn, e.id)
  }

  /** The session on its own, ended only by its own connection's reader: what `SlotOf` is
      with the exits of earlier readers left out. */
  function OwnSlotOf(run: Run, x: nat): Slot {
    if run.Start? then Slot([], false)
    else
      var slot := OwnSlotOf(run.prev, x);
      if StaleExit(Last(run.prev), run.event) then slot else SlotStep(slot, run.event, x)
  }

  /** In a tidy run no exit is stale, and every session is what its frames and its own
      connection's reader make of it. */
  lemma {:induction false} OwnDemultiplexing(run: Run, x: nat)
    requires IsRun(run) && Tidy(run)
    ensures OwnSlotOf(run, x) == SlotOf(run, x) && Agrees(Last(run), OwnSlotOf(run, x), x)
  {
    Demultiplexing(run, x);
    if run.Then? {
      OwnDemultiplexing(run.prev, x);
      Demultiplexing(run.prev, x);
      AlwaysOwned(run.prev);
      hide Agrees, SlotStep, Step;
    }
  }

  function NewFrame(id: nat, data: bytes): Frame {
    Frame(Meta(id, STATUS_NEW, 1, Some(NETWORK_TCP), Some(Ipv4([1, 1, 1, 1], 80)), None), Some(data))
  }

  function KeepFrame(id: nat, data: bytes): Frame {
    Frame(Meta(id, STATUS_KEEP, 1, None, None, None), Some(data))
  }

  const FINE := Env(true, None, true, false, false)

  lemma OpensFine(s: State, x: nat, data: bytes)
    requires data != []
    ensures var c := |s.conns|;
            && Opens(NewFrame(x, data), FINE)
            && Step(s, Arrives(NewFrame(x, data), FINE)) ==
               s.(conns := s.conns + [Conn(x, false, [data])], sessions := s.sessions[x := c],
                  readers := s.readers[c := x], counted := s.counted + |data|)
  {
    assert Written([], false, data, FINE) == [data];
  }

  lemma KeepIsRefused(s: State, x: nat, data: bytes)
    requires x !in s.sessions
    ensures Step(s, Arrives(KeepFrame(x, data), FINE)) == s.(ended := s.ended + [x])
  {
  }

  lemma TwoEvents(run: Run, d: Event, e: Event)
    ensures Extended(run, [d, e]) == Then(Then(run, d), e)
  {
    assert [d, e][..1] == [d] && [d][..0] == [];
    assert Extended(run, [d]) == Then(run, d);
  }

  lemma RunGrows(run: Run, e: Event)
    requires IsRun(run) && Possible(Last(run), e)
    ensures IsRun(Then(run, e)) && Last(Then(run, e)) == Step(Last(run), e)
  {
    hide Step, Possible;
  }

  /** The reader of an earlier connection leaves the session on its own as it is. */
  lemma OwnSlotIsOpen(run: Run, x: nat, d: nat, data: bytes)
    requires OwnSlotOf(run, x).open && StaleExit(Last(run), ReaderExit(x, d))
    ensures OwnSlotOf(Then(Then(run, ReaderExit(x, d)), Arrives(KeepFrame(x, data), FINE)), x).open
  {
    assert OwnSlotOf(Then(run, ReaderExit(x, d)), x) == OwnSlotOf(run, x);
  }

  function OpenedTwice(x: nat, a: bytes, b: bytes): Run {
    Then(Then(Start, Arrives(NewFrame(x, a), FINE)), Arrives(NewFrame(x, b), FINE))
  }

  /** The state a take-over leads to: two connections, two readers, one session. */
  lemma OpenedTwiceIs(x: nat, a: bytes, b: bytes)
    requires a != [] && b != []
    ensures var run := OpenedTwice(x, a, b);
            && IsRun(run) && !Last(run.prev).failed && TakesOver(Last(run.prev), run.event) && |Last(run.prev).conns| == 1
            && Last(run) == State(map[x := 1], map[0 := x, 1 := x], [Conn(x, false, [a]), Conn(x, false, [b])],
                                  None, [], [], |a| + |b|, false)
  {
    var r1 := OpenedTwice(x, a, b).prev;
    OpensFine(START, x, a);
    assert IsRun(Start) && Last(Start) == START && Possible(START, r1.event);
    RunGrows(Start, r1.event);
    hide Step, IsRun, Opens;
    OpensFine(Last(r1), x, b);
    assert Last(r1).sessions == map[x := 0] && Last(r1).readers == map[0 := x] && Last(r1).conns == [Conn(x, false, [a])];
    RunGrows(r1, Arrives(NewFrame(x, b), FINE));
    assert Last(r1).sessions[x := 1] == map[x := 1] && Last(r1).readers[1 := x] == map[0 := x, 1 := x];
  }

  lemma OpenedTwiceSlot(x: nat, a: bytes, b: bytes)
    requires b != []
    ensures OwnSlotOf(OpenedTwice(x, a, b), x).open
  {
    var r1 := OpenedTwice(x, a, b).prev;
    OpensFine(START, x, b);
    OpensSlot(OwnSlotOf(r1, x), NewFrame(x, b), FINE);
    hide SlotStep, Step, Opens;
    assert !StaleExit(Last(r1), Arrives(NewFrame(x, b), FINE));
  }

  /** Both statements fail with a take-over: the first connection's reader removes the
      session of the second, and what follows is answered with an end frame. */
  lemma TakeOverLosesData(x: nat, a: bytes, b: bytes, c: bytes)
    requires a != [] && b != [] && c != []
    ensures var run := Then(Start, Arrives(NewFrame(x, a), FINE));
            var events := [ReaderExit(x, 0), Arrives(KeepFrame(x, c), FINE)];
            && Opens(NewFrame(x, b), FINE) && TakesOver(Last(run), Arrives(NewFrame(x, b), FINE))
            && Continues(run, NewFrame(x, b), FINE, events) && !Carries(run, NewFrame(x, b), FINE, events)
            && var after := Extended(Then(run, Arrives(NewFrame(x, b), FINE)), events);
               && !Agrees(Last(after), OwnSlotOf(after, x), x)
               && Last(after).conns == [Conn(x, false, [a]), Conn(x, false, [b])] && Last(after).ended == [x]
  {
    var r2, exit, keep := OpenedTwice(x, a, b), ReaderExit(x, 0), Arrives(KeepFrame(x, c), FINE);
    var r3 := Then(r2, exit);
    OpenedTwiceIs(x, a, b);
    OpenedTwiceSlot(x, a, b);
    TwoEvents(r2, exit, keep);
    OpensFine(START, x, b);
    assert Possible(Last(r2), exit) && Step(Last(r2), exit).sessions == map[] && Spares(exit, x, 1) && Spares(keep, x, 1);
    assert Last(r2).conns[1].id == x && StaleExit(Last(r2), exit);
    hide Step, SlotStep, Of, Opens, IsRun, StaleExit, OwnSlotOf;
    RunGrows(r2, exit);
    KeepIsRefused(Last(r3), x, c);
    RunGrows(r3, keep);
    OwnSlotIsOpen(r2, x, 0, c);
  }

  // ---------------------------------------------------------------- counting

  /** Bytes written to all connections. */
  function Size(conns: seq<Conn>): nat {
    if conns == [] then 0 else Size(conns[..|conns| - 1]) + |Concat(conns[|conns| - 1].log)|
  }

  lemma {:induction false} SizeUpdates(conns: seq<Conn>, i: nat, c: Conn)
    requires i < |conns|
    ensures Size(conns[i := c]) + |Concat(conns[i].log)| == Size(conns) + |Concat(c.log)|
  {
    var k := |conns| - 1;
    if i == k {
      assert conns[i := c][..k] == conns[..k];
    } else {
      assert conns[i := c][..k] == conns[..k][i := c];
      SizeUpdates(conns[..k], i, c);
    }
  }

  lemma WriteGrows(log: seq<bytes>, udp: bool, data: bytes, env: Env)
    ensures |Concat(Written(log, udp, data, env))| >= |Concat(log)|
    ensures WriteOk(data, env) ==> |Concat(Written(log, udp, data, env))| == |Concat(log)| + |data|
  {
    if data != [] {
      ConcatSnoc(log, data);
      if env.writeFails.Some? {
        ConcatSnoc(log, data[..Min(env.writeFails.value, |data|)]);
      }
    }
  }

  /** The counter is the number of bytes forwarded, and never more than that. */
  ghost predicate Counted(s: State) {
    var total := Size(s.conns) + |Concat(s.datagrams)|;
    s.counted <= total && (!s.failed ==> s.counted == total)
  }

  lemma SizeAppends(conns: seq<Conn>, c: Conn)
    ensures Size(conns + [c]) == Size(conns) + |Concat(c.log)|
  {
    assert (conns + [c])[..|conns|] == conns;
  }

  lemma OpenCounts(s: State, f: Frame, udp: bool, env: Env)
    requires Counted(s) && !s.failed
    ensures Counted(Opened(s, f, udp, env))
  {
    WriteGrows([], udp, Data(f), env);
    SizeAppends(s.conns, Conn(f.meta.sessionId, udp, Written([], udp, Data(f), env)));
    assert |Concat([])| == 0;
    hide Size, Concat, Written, WriteOk, Data;
  }

  lemma ForwardCounts(s: State, f: Frame, env: Env)
    requires Counted(s) && !s.failed && InRange(s)
    ensures Counted(Forwarded(s, f, env))
  {
    var id := f.meta.sessionId;
    if id in s.sessions {
      var conn := s.conns[s.sessions[id]];
      WriteGrows(conn.log, conn.udp, Data(f), env);
      SizeUpdates(s.conns, s.sessions[id], conn.(log := Written(conn.log, conn.udp, Data(f), env)));
    }
  }

  lemma XudpCounts(s: State, f: Frame, env: Env)
    requires Counted(s) && !s.failed
    ensures Counted(XudpHandled(s, f, env))
  {
    ConcatSnoc(s.datagrams, Data(f));
    hide Size, Concat, Data;
  }

  lemma StepInRange(s: State, e: Event)
    requires InRange(s)
    ensures InRange(Step(s, e))
  {
    if e.Arrives? {
      XudpIsApart(s, e.frame, e.env);
      hide XudpHandled, Written, Data;
    }
  }

  lemma SameCount(s: State, t: State)
    requires Counted(s) && !s.failed && t.conns == s.conns && t.datagrams == s.datagrams && t.counted == s.counted
    ensures Counted(t)
  {
  }

  lemma StepCounts(s: State, e: Event)
    requires Counted(s) && InRange(s) && !s.failed
    ensures Counted(Step(s, e))
  {
    hide Counted, XudpHandled, Opened, Forwarded;
    if e.ReaderExit? {
      SameCount(s, Step(s, e));
    } else if IsXudp(e.frame.meta) {
      XudpCounts(s, e.frame, e.env);
    } else if e.frame.meta.status == STATUS_KEEP {
      ForwardCounts(s, e.frame, e.env);
    } else if e.frame.meta.status == STATUS_NEW {
      OpenCounts(s, e.frame, false, e.env);
      OpenCounts(s, e.frame, true, e.env);
      SameCount(s, s.(failed := true));
      SameCount(s, EndSent(s, e.frame.meta.sessionId, e.env));
    } else {
      SameCount(s, Step(s, e));
    }
  }

  /** In every run, `client_to_upstream` counts exactly the bytes forwarded, over all
      sessions and XUDP, for as long as the relay has not failed. */
  lemma {:induction false} Conservation(run: Run)
    requires IsRun(run)
    ensures Counted(Last(run)) && InRange(Last(run))
  {
    if run.Then? {
      Conservation(run.prev);
      StepCounts(Last(run.prev), run.event);
      StepInRange(Last(run.prev), run.event);
    }
  }

  // ---------------------------------------------------------------- failures, answers, datagrams

  /** The payload cannot be sent. */
  predicate Unsendable(f: Frame, env: Env) {
    Data(f) != [] && env.writeFails.Some?
  }

  /** What makes the relay fail on an XUDP frame: a missing target, no socket for a new cone, a
      datagram that cannot be sent, or a status it does not know. */
  predicate ConeTrouble(s: State, f: Frame, env: Env) {
    var m := f.meta;
    var sends := m.target.Some? && ((s.cone.None? && !env.connects) || Unsendable(f, env));
    || (m.status == 1 && (m.target.None? || sends))
    || (m.status == 2 && sends)
    || !(1 <= m.status <= 4)
  }

  /** The network is TCP, which is also the default, or UDP. */
  predicate Understood(m: Meta) {
    m.network == None || m.network == Some(1) || m.network == Some(2)
  }

  /** And on any other frame: a `New` without target or whose upstream cannot be reached or
      written, a write that fails, an end frame that cannot be sent, an unknown status. */
  predicate SessionTrouble(s: State, f: Frame, env: Env) {
    var m := f.meta;
    || (m.status == 1 && (m.target.None? || if Understood(m) then !env.connects || Unsendable(f, env) else !env.replies))
    || (m.status == 2 && if m.sessionId in s.sessions then Unsendable(f, env) else !env.replies)
    || !(1 <= m.status <= 4)
  }

  lemma FailsExactly(s: State, e: Event)
    requires Possible(s, e) && InRange(s)
    ensures Step(s, e).failed <==>
            e.Arrives? && if IsXudp(e.frame.meta) then ConeTrouble(s, e.frame, e.env) else SessionTrouble(s, e.frame, e.env)
  {
    hide Written, Data;
  }

  /** An end frame is sent exactly to a `Keep` for a session there is not and to a `New` for a
      network that is not understood. */
  lemma EndsSentExactly(s: State, e: Event)
    requires Possible(s, e)
    ensures Step(s, e).ended == s.ended +
            if && e.Arrives? && !IsXudp(e.frame.meta) && e.env.replies
               && (|| (e.frame.meta.status == 2 && e.frame.meta.sessionId !in s.sessions)
                   || (e.frame.meta.status == 1 && e.frame.meta.target.Some? && !Understood(e.frame.meta)))
            then [e.frame.meta.sessionId] else []
  {
    hide Written, Data, WriteOk;
    assert s.ended + [] == s.ended;
  }

  /** A `New` or a `Keep` of XUDP that has a target. */
  predicate IsForCone(e: Event) {
    e.Arrives? && IsXudp(e.frame.meta) && 1 <= e.frame.meta.status <= 2 && e.frame.meta.target.Some?
  }

  /** The payloads of these frames, in order. */
  function ConePayloads(run: Run): seq<bytes> {
    if run.Start? then []
    else
      var before, e := ConePayloads(run.prev), run.event;
      if IsForCone(e) then before + NonEmpty(Data(e.frame)) else before
  }

  lemma StepSends(s: State, e: Event)
    requires Possible(s, e) && !Step(s, e).failed
    ensures Step(s, e).datagrams == s.datagrams + if IsForCone(e) then NonEmpty(Data(e.frame)) else []
  {
    hide Written, Data;
    assert s.datagrams + [] == s.datagrams;
  }

  /** In every live run the cone was sent exactly the payloads meant for it, in order. */
  lemma {:induction false} ConeStream(run: Run)
    requires IsRun(run) && !Last(run).failed
    ensures Last(run).datagrams == ConePayloads(run)
  {
    if run.Then? {
      ConeStream(run.prev);
      StepSends(Last(run.prev), run.event);
      hide Step, NonEmpty;
    }
  }

  /** A connection is opened for its frame's session, over UDP exactly when the frame says so,
      and starts with its payload. */
  lemma OpensItsConnection(s: State, f: Frame, env: Env)
    requires Opens(f, env)
    ensures var t := Step(s, Arrives(f, env));
            t.conns == s.conns + [Conn(f.meta.sessionId, f.meta.network == Some(2), NonEmpty(Data(f)))]
  {
    hide Data;
    assert [] + [Data(f)] == [Data(f)];
  }

  lemma WrittenGrows(log: seq<bytes>, udp: bool, data: bytes, env: Env)
    ensures log <= Written(log, udp, data, env)
  {
  }

  /** Connections keep their session and kind, and what was written to them. */
  lemma ConnectionsStay(s: State, e: Event, i: nat)
    requires i < |s.conns|
    ensures var t := Step(s, e);
            && i < |t.conns| && t.conns[i].id == s.conns[i].id && t.conns[i].udp == s.conns[i].udp
            && s.conns[i].log <= t.conns[i].log
  {
    if e.Arrives? {
      XudpIsApart(s, e.frame, e.env);
      WrittenGrows(s.conns[i].log, s.conns[i].udp, Data(e.frame), e.env);
      hide XudpHandled, Data, Written, WriteOk;
    }
  }

  /** The cone is opened by the first XUDP frame that is sent, takes the id of the last `New` that
      brings one, and is gone after an `End`. */
  lemma ConeExactly(s: State, e: Event)
    requires Possible(s, e) && !Step(s, e).failed
    ensures Step(s, e).cone ==
            if e.Arrives? && IsXudp(e.frame.meta) && e.frame.meta.status == 3 then None
            else if IsForCone(e) then
              if e.frame.meta.status == 1 && e.frame.meta.globalId.Some? then Some(e.frame.meta.globalId)
              else if s.cone.None? then Some(None) else s.cone
            else s.cone
  {
    hide Written, Data, WriteOk;
  }
}
