/** A relay's XUDP cone and the registry together: which id is acquired when the cone is
    opened, and which one is detached when it ends. */
module XudpCone {
  import opened Bytes
  import opened Endpoints
  import opened MuxFrame
  import Mux
  import Xudp

  /** The relay, the calls the registry has had from everybody, whether the cone's reader was
      started, and whether the relay is over because its client is gone. */
  datatype State = State(relay: Mux.State, registry: Xudp.Run, reading: bool, over: bool)

  /** The relay takes an event, with what its calls meet: the socket a bind would give, the
      handle of a reader it starts, the time of a detach. Or its client is gone and it closes.
      Or it gives up, on a timeout or an unreadable frame. Or somebody else calls the registry. */
  datatype Event =
    | Takes(event: Mux.Event, bound: Option<nat>, handle: nat, now: nat)
    | Closes(now: nat)
    | Aborts
    | Others(call: Xudp.Call)

  predicate IsCone(e: Mux.Event, status: byte) {
    e.Arrives? && Mux.IsXudp(e.frame.meta) && e.frame.meta.status == status
  }

  /** The frame goes out through the cone, which is opened for it if need be. */
  predicate Sends(e: Mux.Event) {
    (IsCone(e, STATUS_NEW) || IsCone(e, STATUS_KEEP)) && e.frame.meta.target.Some?
  }

  /** The id the frame brings for the cone. */
  function IdOf(e: Mux.Event): Option<bytes> {
    if Sends(e) && e.frame.meta.status == STATUS_NEW then e.frame.meta.globalId else None
  }

  function ConeId(m: Mux.State): Option<bytes> {
    if m.cone.Some? then m.cone.value else None
  }

  /** Opening a cone for an id acquires it. */
  function Acquiring(s: State, e: Mux.Event, bound: Option<nat>): seq<Xudp.Call> {
    if s.relay.cone.None? && IdOf(e).Some? then [Xudp.Acquire(IdOf(e).value, bound)] else []
  }

  /** The first frame sent starts the reader, which is registered under the cone's id. */
  function Registering(s: State, e: Mux.Event, handle: nat): seq<Xudp.Call> {
    var t := Mux.Step(s.relay, e);
    if Sends(e) && !t.failed && !s.reading && ConeId(t).Some? then [Xudp.Register(ConeId(t).value, handle)] else []
  }

  /** The end of a cone detaches the id it has then. */
  function Detaching(s: State, now: nat): seq<Xudp.Call> {
    if ConeId(s.relay).Some? then [Xudp.Detach(ConeId(s.relay).value, now)] else []
  }

  function CallsOf(s: State, e: Event): seq<Xudp.Call> {
    match e
    case Takes(m, bound, handle, now) =>
      if IsCone(m, STATUS_END) then Detaching(s, now) else Acquiring(s, m, bound) + Registering(s, m, handle)
    case Closes(now) => Detaching(s, now)
    case Aborts => []
    case Others(call) => [call]
  }

  function Step(s: State, e: Event): State {
    var registry := Xudp.Extended(s.registry, CallsOf(s, e));
    match e
    case Takes(m, _, _, _) =>
      var relay := Mux.Step(s.relay, m);
      State(relay, registry, !IsCone(m, STATUS_END) && (s.reading || (Sends(m) && !relay.failed)), s.over)
    case Closes(_) => State(s.relay.(cone := None), registry, false, true)
    case Aborts => s.(relay := s.relay.(failed := true))
    case Others(_) => s.(registry := registry)
  }

  /** A relay that failed or is over does nothing more. A cone for an id is opened exactly when
      the registry has a socket for it or can bind one. */
  predicate Possible(s: State, e: Event) {
    && (!e.Others? ==> !s.relay.failed && !s.over)
    && (e.Takes? ==>
          && Mux.Possible(s.relay, e.event)
          && (Acquiring(s, e.event, e.bound) != [] ==>
                (e.event.env.connects <==> IdOf(e.event).value in Xudp.Last(s.registry).entries || e.bound.Some?)))
  }

  function After(s: State, events: seq<Event>): State {
    if events == [] then s else Step(After(s, events[..|events| - 1]), events[|events| - 1])
  }

  predicate IsRun(s: State, events: seq<Event>) {
    events != [] ==>
      var n := |events| - 1;
      IsRun(s, events[..n]) && Possible(After(s, events[..n]), events[n])
  }

  // ---------------------------------------------------------------- the id of a cone

  /** The last id brought for the cone that was opened for `a`. */
  function LastId(a: bytes, events: seq<Event>): bytes {
    if events == [] then a
    else
      var n := |events| - 1;
      if events[n].Takes? && IdOf(events[n].event).Some? then IdOf(events[n].event).value
      else LastId(a, events[..n])
  }

  predicate EndsCone(e: Event) {
    e.Closes? || (e.Takes? && IsCone(e.event, STATUS_END))
  }

  /** An `End` that was read from the wire carries no network, and so never reaches the cone. */
  lemma EndPassesConeBy(body: bytes, payload: Option<bytes>, env: Mux.Env)
    requires ParseMeta(body).Ok? && ParseMeta(body).value.status == STATUS_END
    ensures !IsCone(Mux.Arrives(Frame(ParseMeta(body).value, payload), env), STATUS_END)
  {
  }

  lemma ConeStep(m: Mux.State, e: Mux.Event)
    requires m.cone.Some? && m.cone.value.Some? && !IsCone(e, STATUS_END) && !Mux.Step(m, e).failed
    ensures Mux.Step(m, e).cone == Some(if IdOf(e).Some? then IdOf(e) else m.cone.value)
  {
    hide Mux.Data, Mux.Written, Mux.WriteOk;
  }

  /** A cone has the id that was brought for it last. */
  lemma {:induction false} ConeHasLastId(s: State, events: seq<Event>, a: bytes)
    requires s.relay.cone == Some(Some(a)) && IsRun(s, events) && !After(s, events).relay.failed
    requires forall e :: e in events ==> !EndsCone(e)
    ensures After(s, events).relay.cone == Some(Some(LastId(a, events)))
  {
    if events != [] {
      var n := |events| - 1;
      var before, e := After(s, events[..n]), events[n];
      assert e in events;
      if e.Takes? {
        ConeHasLastId(s, events[..n], a);
        ConeStep(before.relay, e.event);
      } else {
        ConeHasLastId(s, events[..n], a);
      }
    }
  }

  // ---------------------------------------------------------------- what the registry makes of it

  predicate Detaches(c: Xudp.Call, id: bytes) {
    c.Detach? && c.id == id
  }

  /** An id in use stays in use, on its socket, until somebody detaches it. */
  lemma {:induction false} StaysInUse(run: Xudp.Run, calls: seq<Xudp.Call>, id: bytes)
    requires Xudp.LifeOf(run, id).InUse? && forall c :: c in calls ==> !Detaches(c, id)
    ensures Xudp.LifeOf(Xudp.Extended(run, calls), id) == Xudp.LifeOf(run, id)
  {
    if calls != [] {
      StaysInUse(run, calls[..|calls| - 1], id);
      assert calls[|calls| - 1] in calls;
    }
  }

  lemma OnlyEndsDetach(s: State, e: Event, id: bytes)
    requires !EndsCone(e) && (e.Others? ==> !Detaches(e.call, id))
    ensures forall c :: c in CallsOf(s, e) ==> !Detaches(c, id)
  {
    hide Mux.Step;
  }

  /** Whatever the relay takes but the cone's end, and even if it fails, the id stays in use. */
  lemma {:induction false} UsedUntilEnd(s: State, events: seq<Event>, id: bytes)
    requires Xudp.LifeOf(s.registry, id).InUse?
    requires forall e :: e in events ==> !EndsCone(e) && (e.Others? ==> !Detaches(e.call, id))
    ensures Xudp.LifeOf(After(s, events).registry, id) == Xudp.LifeOf(s.registry, id)
  {
    if events != [] {
      var n := |events| - 1;
      var before, e := After(s, events[..n]), events[n];
      UsedUntilEnd(s, events[..n], id);
      assert e in events;
      OnlyEndsDetach(before, e, id);
      hide CallsOf, Mux.Step;
      StaysInUse(before.registry, CallsOf(before, e), id);
    }
  }

  /** The event opens a cone for `id`. */
  predicate Opens(s: State, e: Event, id: bytes) {
    && s.relay.cone.None? && e.Takes? && IdOf(e.event) == Some(id)
    && Possible(s, e) && !Step(s, e).relay.failed
  }

  lemma OpenStep(m: Mux.State, e: Mux.Event)
    requires m.cone.None? && IdOf(e).Some? && !Mux.Step(m, e).failed
    ensures Mux.Step(m, e).cone == Some(IdOf(e)) && e.env.connects
  {
    hide Mux.Data;
  }

  lemma AcquireTakes(run: Xudp.Run, id: bytes, bound: Option<nat>)
    requires id in Xudp.Last(run).entries || bound.Some?
    ensures Xudp.LifeOf(Xudp.Then(run, Xudp.Acquire(id, bound)), id).InUse?
  {
    Xudp.RegistryShowsLife(run, id);
  }

  lemma ExtendedByTwo(run: Xudp.Run, a: Xudp.Call, rest: seq<Xudp.Call>)
    requires |rest| <= 1
    ensures Xudp.Extended(run, [a] + rest) == Xudp.Extended(Xudp.Then(run, a), rest)
  {
    var calls := [a] + rest;
    assert [a][..0] == [];
    assert Xudp.Extended(run, [a]) == Xudp.Then(run, a);
    if rest == [] {
      assert calls == [a];
    } else {
      assert rest == [rest[0]] && calls[..1] == [a] && rest[..0] == [];
    }
  }

  /** An opened cone has its id, and has it in use. */
  lemma OpenedIsUsed(s: State, e: Event, id: bytes)
    requires Opens(s, e, id)
    ensures Step(s, e).relay.cone == Some(Some(id)) && Xudp.LifeOf(Step(s, e).registry, id).InUse?
  {
    OpenStep(s.relay, e.event);
    hide Mux.Step;
    AcquireTakes(s.registry, id, e.bound);
    var acquire, rest := Xudp.Acquire(id, e.bound), Registering(s, e.event, e.handle);
    assert CallsOf(s, e) == [acquire] + rest;
    ExtendedByTwo(s.registry, acquire, rest);
    StaysInUse(Xudp.Then(s.registry, acquire), rest, id);
  }

  lemma EndDetachesId(s: State, e: Event, id: bytes, last: bytes)
    requires EndsCone(e) && s.relay.cone == Some(Some(last)) && Xudp.LifeOf(s.registry, id).InUse?
    ensures var used, l := Xudp.LifeOf(s.registry, id), Xudp.LifeOf(Step(s, e).registry, id);
            l == if last == id then Xudp.Idle(used.socket, e.now) else used
  {
    hide Mux.Step;
    assert CallsOf(s, e) == [Xudp.Detach(last, e.now)];
    ExtendedByTwo(s.registry, Xudp.Detach(last, e.now), []);
    assert [Xudp.Detach(last, e.now)] + [] == [Xudp.Detach(last, e.now)];
  }

  /** The id a cone was opened for is let go at the cone's end if and only if it is the id
      brought for the cone last. Otherwise it stays in use. Nobody else detaches it. */
  lemma ReleasedExactly(s: State, open: Event, events: seq<Event>, end: Event, id: bytes)
    requires Opens(s, open, id) && EndsCone(end)
    requires IsRun(Step(s, open), events) && Possible(After(Step(s, open), events), end)
    requires forall e :: e in events ==> !EndsCone(e) && (e.Others? ==> !Detaches(e.call, id))
    ensures var before := After(Step(s, open), events);
            var used, l := Xudp.LifeOf(before.registry, id), Xudp.LifeOf(Step(before, end).registry, id);
            used.InUse? && l == if LastId(id, events) == id then Xudp.Idle(used.socket, end.now) else used
  {
    var t := Step(s, open);
    OpenedIsUsed(s, open, id);
    UsedUntilEnd(t, events, id);
    ConeHasLastId(t, events, id);
    hide Step;
    EndDetachesId(After(t, events), end, id, LastId(id, events));
  }

  lemma {:induction false} FailureLasts(s: State, events: seq<Event>)
    requires s.relay.failed && IsRun(s, events)
    ensures After(s, events).relay.failed && forall e :: e in events ==> e.Others?
  {
    if events != [] {
      var n := |events| - 1;
      FailureLasts(s, events[..n]);
      assert events == events[..n] + [events[n]];
    }
  }

  /** A relay that fails or gives up never lets its cone's id go: the id stays in use whatever comes, until
      somebody else detaches it. */
  lemma FailureKeepsId(s: State, open: Event, events: seq<Event>, later: seq<Event>, id: bytes)
    requires Opens(s, open, id)
    requires var failed := After(Step(s, open), events); failed.relay.failed && IsRun(failed, later)
    requires forall e :: e in events ==> !EndsCone(e) && (e.Others? ==> !Detaches(e.call, id))
    requires forall e :: e in later ==> e.Others? ==> !Detaches(e.call, id)
    ensures Xudp.LifeOf(After(After(Step(s, open), events), later).registry, id).InUse?
  {
    var t := Step(s, open);
    OpenedIsUsed(s, open, id);
    UsedUntilEnd(t, events, id);
    FailureLasts(After(t, events), later);
    UsedUntilEnd(After(t, events), later, id);
  }

  // ---------------------------------------------------------------- every call of a relay

  const FRESH := State(Mux.START, Xudp.Start, false, false)

  /** While a relay works, its cone's reader runs exactly as long as there is a cone. */
  lemma {:induction false} ReaderGoesWithCone(events: seq<Event>)
    requires IsRun(FRESH, events) && !After(FRESH, events).relay.failed
    ensures var s := After(FRESH, events); s.reading <==> s.relay.cone.Some?
  {
    if events != [] {
      var n := |events| - 1;
      var s, e := After(FRESH, events[..n]), events[n];
      ReaderGoesWithCone(events[..n]);
      if e.Takes? {
        Mux.ConeExactly(s.relay, e.event);
        hide Mux.Step;
      }
    }
  }

  lemma CallsInStep(s: State, e: Event)
    requires e.Takes? && Mux.Possible(s.relay, e.event) && !Mux.Step(s.relay, e.event).failed
    requires s.reading <==> s.relay.cone.Some?
    ensures !IsCone(e.event, STATUS_END) ==>
              CallsOf(s, e) == if s.relay.cone.None? && IdOf(e.event).Some?
                               then [Xudp.Acquire(IdOf(e.event).value, e.bound), Xudp.Register(IdOf(e.event).value, e.handle)]
                               else []
  {
    Mux.ConeExactly(s.relay, e.event);
    hide Mux.Step, Mux.Possible, Mux.IsXudp, Xudp.Extended;
  }

  /** The calls that a frame makes a relay put to the registry, in any state it can reach: the
      first frame that is sent acquires the id it brings and registers the reader under it,
      the end of the cone detaches its id, and nothing else calls. */
  lemma CallsExactly(events: seq<Event>, e: Event)
    requires var s := After(FRESH, events);
             IsRun(FRESH, events) && Possible(s, e) && e.Takes? && !Step(s, e).relay.failed
    ensures var s := After(FRESH, events);
            CallsOf(s, e) ==
            if IsCone(e.event, STATUS_END) then
              if ConeId(s.relay).Some? then [Xudp.Detach(ConeId(s.relay).value, e.now)] else []
            else if s.relay.cone.None? && IdOf(e.event).Some? then
              [Xudp.Acquire(IdOf(e.event).value, e.bound), Xudp.Register(IdOf(e.event).value, e.handle)]
            else []
  {
    hide After, IsRun, FRESH, Mux.Step, Mux.Possible, Xudp.Extended, Xudp.Last;
    ReaderGoesWithCone(events);
    CallsInStep(After(FRESH, events), e);
  }

  // ---------------------------------------------------------------- an id left behind

  function NewFor(id: bytes): Event {
    var meta := Meta(0, STATUS_NEW, 0, Some(NETWORK_UDP), Some(Ipv4([1, 1, 1, 1], 53)), Some(id));
    Takes(Mux.Arrives(Frame(meta, None), Mux.FINE), Some(7), 1, 0)
  }

  lemma NewForIs(s: State, id: bytes)
    requires !s.relay.failed && !s.over
    ensures IdOf(NewFor(id).event) == Some(id) && !EndsCone(NewFor(id))
    ensures Possible(s, NewFor(id)) && !Step(s, NewFor(id)).relay.failed && !Step(s, NewFor(id)).over
  {
  }

  lemma OneEvent(s: State, e: Event)
    requires Possible(s, e)
    ensures IsRun(s, [e]) && After(s, [e]) == Step(s, e)
  {
    assert [e][..0] == [];
    hide Step, Possible;
  }

  /** A second id for the same cone: at the end that one is detached, and the first is in use
      for ever, however often the registry is cleaned up or asked. */
  lemma FirstIdIsLeftBehind(a: bytes, b: bytes, calls: seq<Xudp.Call>)
    requires a != b && forall c :: c in calls ==> !Detaches(c, a)
    ensures var first := Step(FRESH, NewFor(a));
            var closed := Step(After(first, [NewFor(b)]), Closes(0));
            && Opens(FRESH, NewFor(a), a) && IsRun(first, [NewFor(b)]) && Possible(After(first, [NewFor(b)]), Closes(0))
            && Xudp.LifeOf(Xudp.Extended(closed.registry, calls), a).InUse?
  {
    var first := Step(FRESH, NewFor(a));
    NewForIs(FRESH, a);
    NewForIs(first, b);
    assert FRESH.relay.cone.None?;
    hide Step, NewFor, FRESH;
    OneEvent(first, NewFor(b));
    assert LastId(a, [NewFor(b)]) == b;
    ReleasedExactly(FRESH, NewFor(a), [NewFor(b)], Closes(0), a);
    StaysInUse(Step(After(first, [NewFor(b)]), Closes(0)).registry, calls, a);
  }
}
