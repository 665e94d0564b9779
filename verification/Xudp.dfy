/** The registry of XUDP sockets by global id: reuse, expiry, and the readers it aborts. */
module Xudp {
  import opened Bytes

  const EXPIRE_TTL: nat := 60  // seconds

  datatype Status = Active | Initializing | Expiring

  datatype Entry = Entry(socket: nat, status: Status, expireAt: Option<nat>, reader: Option<nat>)

  type Entries = map<bytes, Entry>

  /** Calls with the time they are made. An acquire may have to bind a socket, which can
      fail; a cleanup reads the clock before it gets the lock. */
  datatype Call =
    | Acquire(id: bytes, bound: Option<nat>)
    | Detach(id: bytes, now: nat)
    | Register(id: bytes, handle: nat)
    | Cleanup(seen: nat)

  function Stopped(reader: Option<nat>): set<nat> {
    if reader.Some? then {reader.value} else {}
  }

  function AcquireEntry(o: Option<Entry>, bound: Option<nat>): Option<Entry> {
    match o
    case Some(e) => if e.status == Initializing then o else Some(Entry(e.socket, Active, None, None))
    case None => if bound.Some? then Some(Entry(bound.value, Active, None, None)) else None
  }

  function DetachEntry(o: Option<Entry>, now: nat): Option<Entry> {
    if o.Some? && o.value.status == Active then Some(Entry(o.value.socket, Expiring, Some(now + EXPIRE_TTL), None)) else o
  }

  predicate Expired(e: Entry, seen: nat) {
    e.status == Expiring && e.expireAt.Some? && e.expireAt.value <= seen
  }

  function Get(entries: Entries, id: bytes): Option<Entry> {
    if id in entries then Some(entries[id]) else None
  }

  function Put(entries: Entries, id: bytes, o: Option<Entry>): Entries {
    if o.Some? then entries[id := o.value] else entries
  }

  function Applied(entries: Entries, c: Call): Entries {
    match c
    case Acquire(id, bound) => Put(entries, id, AcquireEntry(Get(entries, id), bound))
    case Detach(id, now) => Put(entries, id, DetachEntry(Get(entries, id), now))
    case Register(id, handle) => if id in entries then entries[id := entries[id].(reader := Some(handle))] else entries
    case Cleanup(seen) => map id | id in entries && !Expired(entries[id], seen) :: entries[id]
  }

  /** The readers a call stops. */
  function Stops(entries: Entries, c: Call): set<nat> {
    match c
    case Acquire(id, _) => if id in entries && entries[id].status != Initializing then Stopped(entries[id].reader) else {}
    case Detach(id, _) => if id in entries && entries[id].status == Active then Stopped(entries[id].reader) else {}
    case Register(_, _) => {}
    case Cleanup(seen) => set id | id in entries && Expired(entries[id], seen) && entries[id].reader.Some? :: entries[id].reader.value
  }

  // ---------------------------------------------------------------- the manager

  class Manager {
    var entries: map<bytes, Entry>
    var aborted: set<nat>

    constructor ()
      ensures entries == map[] && aborted == {}
    {
      entries, aborted := map[], {};
    }

    method Abort(reader: Option<nat>)
      modifies this`aborted
      ensures aborted == old(aborted) + Stopped(reader)
    {
      if reader.Some? {
        aborted := aborted + {reader.value};
      }
    }

    /** `bound` is the socket a bind would give. */
    method AcquireInner(id: bytes, bound: Option<nat>) returns (r: Option<(nat, bool)>)
      modifies this
      ensures entries == Applied(old(entries), Acquire(id, bound)) && aborted == old(aborted) + Stops(old(entries), Acquire(id, bound))
      ensures id in old(entries) ==> r == Some((old(entries[id].socket), true))
      ensures id !in old(entries) ==> r == if bound.Some? then Some((bound.value, false)) else None
    {
      if id in entries {
        var entry := entries[id];
        if entry.status == Initializing {
          return Some((entry.socket, true));
        }
        entry := entry.(status := Initializing);
        entries := entries[id := entry];
        Abort(entry.reader);
        entry := entry.(reader := None);
        entry := entry.(expireAt := None);
        entry := entry.(status := Active);
        entries := entries[id := entry];
        return Some((entry.socket, true));
      }
      if bound.None? {
        return None;
      }
      entries := entries[id := Entry(bound.value, Active, None, None)];
      r := Some((bound.value, false));
    }

    method DetachInner(id: bytes, now: nat)
      modifies this
      ensures entries == Applied(old(entries), Detach(id, now)) && aborted == old(aborted) + Stops(old(entries), Detach(id, now))
    {
      if id in entries {
        var entry := entries[id];
        if entry.status == Active {
          Abort(entry.reader);
          entry := entry.(reader := None);
          entry := entry.(status := Expiring);
          entry := entry.(expireAt := Some(now + EXPIRE_TTL));
          entries := entries[id := entry];
        }
      }
    }

    method RegisterInner(id: bytes, handle: nat)
      modifies this
      ensures entries == Applied(old(entries), Register(id, handle)) && aborted == old(aborted) + Stops(old(entries), Register(id, handle))
    {
      if id in entries {
        entries := entries[id := entries[id].(reader := Some(handle))];
      }
    }

    method CleanupExpired(seen: nat)
      modifies this
      ensures entries == Applied(old(entries), Cleanup(seen)) && aborted == old(aborted) + Stops(old(entries), Cleanup(seen))
    {
      var expired := set id | id in entries && Expired(entries[id], seen);
      ghost var all := expired;
      while expired != {}
        invariant expired <= all
        invariant entries.Keys == old(entries).Keys - (all - expired)
        invariant forall id :: id in entries ==> entries[id] == old(entries)[id]
        invariant aborted == old(aborted) +
                    set id | id in all - expired && old(entries)[id].reader.Some? :: old(entries)[id].reader.value
        decreases |expired|
      {
        var id :| id in expired;
        Abort(entries[id].reader);
        entries := entries - {id};
        expired := expired - {id};
      }
      assert entries == Applied(old(entries), Cleanup(seen));
    }
  }

  // ---------------------------------------------------------------- runs

  /** The registry, the readers it has stopped, and for whom each reader was registered. */
  datatype State = State(entries: Entries, aborted: set<nat>, owner: map<nat, bytes>)

  function Step(s: State, c: Call): State {
    State(Applied(s.entries, c), s.aborted + Stops(s.entries, c), if c.Register? then s.owner[c.handle := c.id] else s.owner)
  }

  datatype Run = Start | Then(prev: Run, call: Call)

  function Last(run: Run): State {
    if run.Start? then State(map[], {}, map[]) else Step(Last(run.prev), run.call)
  }

  // ---------------------------------------------------------------- lifetimes

  /** Between calls no entry is half initialised, and exactly the expiring ones have a
      deadline. */
  predicate Settled(entries: Entries) {
    forall id :: id in entries ==>
      entries[id].status != Initializing && (entries[id].expireAt.Some? <==> entries[id].status == Expiring)
  }

  lemma CallSettles(s: State, c: Call)
    requires Settled(s.entries)
    ensures Settled(Step(s, c).entries)
  {
  }

  lemma {:induction false} AlwaysSettled(run: Run)
    ensures Settled(Last(run).entries)
  {
    if run.Then? {
      AlwaysSettled(run.prev);
      CallSettles(Last(run.prev), run.call);
      hide Settled, Step;
    }
  }

  /** The life of one id, without statuses and deadlines: absent, in use, or idle since
      the detach that left it so. */
  datatype Life = Absent | InUse(socket: nat) | Idle(socket: nat, since: nat)

  function LifeStep(l: Life, c: Call, id: bytes): Life {
    match c
    case Acquire(a, bound) =>
      if a != id then l
      else if !l.Absent? then InUse(l.socket)
      else if bound.Some? then InUse(bound.value)
      else Absent
    case Detach(a, now) => if a == id && l.InUse? then Idle(l.socket, now) else l
    case Register(_, _) => l
    case Cleanup(seen) => if l.Idle? && l.since + EXPIRE_TTL <= seen then Absent else l
  }

  function LifeOf(run: Run, id: bytes): Life {
    if run.Start? then Absent else LifeStep(LifeOf(run.prev, id), run.call, id)
  }

  predicate Shows(o: Option<Entry>, l: Life) {
    match l
    case Absent => o.None?
    case InUse(socket) => o.Some? && o.value.socket == socket && o.value.status == Active
    case Idle(socket, since) =>
      o.Some? && o.value.socket == socket && o.value.status == Expiring && o.value.expireAt == Some(since + EXPIRE_TTL)
  }

  /** In every run the registry shows the life of every id. */
  lemma {:induction false} RegistryShowsLife(run: Run, id: bytes)
    ensures Shows(Get(Last(run).entries, id), LifeOf(run, id))
  {
    if run.Then? {
      RegistryShowsLife(run.prev, id);
    }
  }

  function Extended(run: Run, calls: seq<Call>): Run {
    if calls == [] then run else Then(Extended(run, calls[..|calls| - 1]), calls[|calls| - 1])
  }

  predicate EndsIdle(l: Life, c: Call) {
    c.Cleanup? && l.Idle? && l.since + EXPIRE_TTL <= c.seen
  }

  /** Some cleanup among the calls came a full TTL after the detach that began the idle
      time it ended. */
  predicate Lapsed(run: Run, calls: seq<Call>, id: bytes) {
    if calls == [] then false
    else
      var n := |calls| - 1;
      Lapsed(run, calls[..n], id) || EndsIdle(LifeOf(Extended(run, calls[..n]), id), calls[n])
  }

  /** An id keeps its entry and its socket through any calls, unless it lapsed on the way. */
  lemma {:induction false} KeepsSocket(run: Run, calls: seq<Call>, id: bytes)
    requires id in Last(run).entries && !Lapsed(run, calls, id)
    ensures var s, t := Last(run), Last(Extended(run, calls));
            id in t.entries && t.entries[id].socket == s.entries[id].socket
  {
    if calls != [] {
      var n := |calls| - 1;
      KeepsSocket(run, calls[..n], id);
      RegistryShowsLife(Extended(run, calls[..n]), id);
      RegistryShowsLife(Extended(run, calls), id);
    }
  }

  // ---------------------------------------------------------------- readers

  /** Every reader that was not stopped is the one its id's entry knows, so there is at
      most one per id. */
  ghost predicate OneReader(s: State) {
    && (forall h :: h in s.owner && h !in s.aborted ==>
          s.owner[h] in s.entries && s.entries[s.owner[h]].reader == Some(h))
    && (forall id :: id in s.entries && s.entries[id].reader.Some? ==>
          && s.entries[id].reader.value in s.owner
          && s.owner[s.entries[id].reader.value] == id
          && s.entries[id].reader.value !in s.aborted)
    && s.aborted <= s.owner.Keys
  }

  /** Handles are given out once. */
  predicate Fresh(s: State, c: Call) {
    c.Register? ==> c.handle !in s.owner
  }

  /** A reader is registered where there is an entry without one. */
  predicate Welcome(s: State, c: Call) {
    c.Register? ==> c.id in s.entries && s.entries[c.id].reader.None?
  }

  lemma RegisterKeepsOne(s: State, id: bytes, h: nat)
    requires OneReader(s) && Fresh(s, Register(id, h))
    ensures OneReader(Step(s, Register(id, h))) <==> Welcome(s, Register(id, h))
  {
    var t := Step(s, Register(id, h));
    assert h !in s.aborted;
    if id in s.entries && s.entries[id].reader.Some? {
      var old' := s.entries[id].reader.value;
      assert old' in t.owner && old' !in t.aborted && t.owner[old'] == id;
    } else if id !in s.entries {
      assert h in t.owner && h !in t.aborted && t.owner[h] == id;
    }
  }

  lemma CleanupKeepsOne(s: State, seen: nat)
    requires OneReader(s)
    ensures OneReader(Step(s, Cleanup(seen)))
  {
    var t := Step(s, Cleanup(seen));
    forall h | h in t.owner && h !in t.aborted
      ensures t.owner[h] in t.entries && t.entries[t.owner[h]].reader == Some(h)
    {
      var id := s.owner[h];
      assert s.entries[id].reader.value == h;
    }
  }

  lemma OtherCallsKeepOne(s: State, c: Call)
    requires OneReader(s) && Settled(s.entries) && (c.Acquire? || c.Detach?)
    ensures OneReader(Step(s, c))
  {
  }

  /** One call keeps "at most one running reader per id" exactly when it does not register
      a reader over another, or where there is no entry. */
  lemma CallKeepsOne(s: State, c: Call)
    requires OneReader(s) && Settled(s.entries) && Fresh(s, c)
    ensures OneReader(Step(s, c)) <==> Welcome(s, c)
  {
    match c
    case Register(id, h) => RegisterKeepsOne(s, id, h);
    case Cleanup(seen) => CleanupKeepsOne(s, seen);
    case _ => OtherCallsKeepOne(s, c);
  }

  /** No reader was registered for `id` since it was last acquired, or detached from use. */
  predicate Free(run: Run, id: bytes) {
    run.Then? &&
    match run.call
    case Acquire(a, _) => a == id || Free(run.prev, id)
    case Detach(a, _) => (a == id && LifeOf(run.prev, id).InUse?) || Free(run.prev, id)
    case Register(a, _) => a != id && Free(run.prev, id)
    case Cleanup(_) => Free(run.prev, id)
  }

  /** The entry of an id has no reader exactly when the calls left the id free. */
  lemma {:induction false} FreeIsBare(run: Run, id: bytes)
    requires !LifeOf(run, id).Absent?
    ensures id in Last(run).entries && (Free(run, id) <==> Last(run).entries[id].reader.None?)
  {
    AlwaysSettled(run.prev);
    RegistryShowsLife(run, id);
    RegistryShowsLife(run.prev, id);
    if !LifeOf(run.prev, id).Absent? {
      FreeIsBare(run.prev, id);
    }
  }

  /** Handles are given out once. */
  predicate FreshHandles(run: Run) {
    run.Then? ==> FreshHandles(run.prev) && Fresh(Last(run.prev), run.call)
  }

  /** Callers register a reader only for an id that is there and free. */
  predicate Disciplined(run: Run) {
    run.Then? ==>
      && Disciplined(run.prev)
      && (run.call.Register? ==> !LifeOf(run.prev, run.call.id).Absent? && Free(run.prev, run.call.id))
  }

  /** At every point of the run, every running reader was the one its id's entry knows. */
  ghost predicate AlwaysOne(run: Run) {
    OneReader(Last(run)) && (run.Then? ==> AlwaysOne(run.prev))
  }

  /** A reader registered for `id` that was not stopped. */
  predicate Running(s: State, h: nat, id: bytes) {
    h in s.owner && s.owner[h] == id && h !in s.aborted
  }

  /** Exactly with disciplined callers every running reader is known to its id's entry all
      along, and then no id ever has two. */
  lemma {:induction false} AtMostOneReader(run: Run)
    requires FreshHandles(run)
    ensures AlwaysOne(run) <==> Disciplined(run)
    ensures Disciplined(run) ==> forall h, k, id :: Running(Last(run), h, id) && Running(Last(run), k, id) ==> h == k
  {
    if run.Then? {
      AtMostOneReader(run.prev);
      if AlwaysOne(run.prev) {
        AlwaysSettled(run.prev);
        CallKeepsOne(Last(run.prev), run.call);
        if run.call.Register? {
          RegistryShowsLife(run.prev, run.call.id);
          if !LifeOf(run.prev, run.call.id).Absent? {
            FreeIsBare(run.prev, run.call.id);
          }
        }
      }
      hide Step, LifeStep, Settled;
    }
  }

  /** No reader was registered for `id` since it was last acquired. */
  predicate FirstSince(run: Run, id: bytes) {
    run.Then? ==>
      match run.call
      case Acquire(a, _) => a == id || FirstSince(run.prev, id)
      case Register(a, _) => a != id && FirstSince(run.prev, id)
      case _ => FirstSince(run.prev, id)
  }

  /** Each register is the first since the last acquire of its id, and the id is there. */
  predicate OncePerAcquire(run: Run) {
    run.Then? ==>
      && OncePerAcquire(run.prev)
      && (run.call.Register? ==> !LifeOf(run.prev, run.call.id).Absent? && FirstSince(run.prev, run.call.id))
  }

  lemma {:induction false} FirstIsFree(run: Run, id: bytes)
    requires FirstSince(run, id) && !LifeOf(run, id).Absent?
    ensures Free(run, id)
  {
    if !(run.call.Acquire? && run.call.id == id) {
      FirstIsFree(run.prev, id);
    }
  }

  /** One register per acquire, whatever detaches and cleanups come between, is disciplined
      as long as the id has not lapsed. */
  lemma {:induction false} OncePerAcquireSuffices(run: Run)
    requires OncePerAcquire(run)
    ensures Disciplined(run)
  {
    if run.Then? {
      OncePerAcquireSuffices(run.prev);
      if run.call.Register? {
        FirstIsFree(run.prev, run.call.id);
      }
    }
  }

  // ---------------------------------------------------------------- one running reader per id

  /** No id has two running readers. */
  ghost predicate Single(s: State) {
    forall h, k, id :: Running(s, h, id) && Running(s, k, id) ==> h == k
  }

  ghost predicate AlwaysSingle(run: Run) {
    Single(Last(run)) && (run.Then? ==> AlwaysSingle(run.prev))
  }

  /** The ids for which a reader was registered while they were absent, each with the first
      such reader. */
  function Orphans(run: Run): map<bytes, nat> {
    if run.Start? then map[]
    else
      var orphans := Orphans(run.prev);
      match run.call
      case Register(id, h) =>
        if LifeOf(run.prev, id).Absent? && id !in orphans then orphans[id := h] else orphans
      case _ => orphans
  }

  /** Callers register a reader only for an id that is absent or free, and for none that a
      reader was registered for while it was absent. */
  predicate Clean(run: Run) {
    run.Then? ==>
      && Clean(run.prev)
      && (run.call.Register? ==>
            && (LifeOf(run.prev, run.call.id).Absent? || Free(run.prev, run.call.id))
            && run.call.id !in Orphans(run.prev))
  }

  /** Every running reader is the orphan of its id, or else the one its entry knows. */
  ghost predicate Accounted(s: State, orphans: map<bytes, nat>) {
    && (forall h :: h in s.owner && h !in s.aborted ==>
          if s.owner[h] in orphans then h == orphans[s.owner[h]]
          else s.owner[h] in s.entries && s.entries[s.owner[h]].reader == Some(h))
    && (forall id :: id in s.entries && s.entries[id].reader.Some? ==>
          && s.entries[id].reader.value in s.owner
          && s.owner[s.entries[id].reader.value] == id
          && s.entries[id].reader.value !in s.aborted
          && id !in orphans)
    && (forall id :: id in orphans ==> Running(s, orphans[id], id))
    && s.aborted <= s.owner.Keys
  }

  lemma AccountedIsSingle(s: State, orphans: map<bytes, nat>)
    requires Accounted(s, orphans)
    ensures Single(s)
  {
  }

  lemma CleanupAccounts(s: State, seen: nat, orphans: map<bytes, nat>)
    requires Accounted(s, orphans)
    ensures Accounted(Step(s, Cleanup(seen)), orphans)
  {
    var t := Step(s, Cleanup(seen));
    forall h | h in t.owner && h !in t.aborted && t.owner[h] !in orphans
      ensures t.owner[h] in t.entries && t.entries[t.owner[h]].reader == Some(h)
    {
      assert s.entries[s.owner[h]].reader.value == h;
    }
  }

  lemma AcquireAccounts(s: State, id: bytes, bound: Option<nat>, orphans: map<bytes, nat>)
    requires Accounted(s, orphans) && Settled(s.entries)
    ensures Accounted(Step(s, Acquire(id, bound)), orphans)
  {
  }

  lemma DetachAccounts(s: State, id: bytes, now: nat, orphans: map<bytes, nat>)
    requires Accounted(s, orphans) && Settled(s.entries)
    ensures Accounted(Step(s, Detach(id, now)), orphans)
  {
  }

  lemma KnownAccounts(s: State, id: bytes, h: nat, orphans: map<bytes, nat>)
    requires Accounted(s, orphans) && h !in s.owner && id !in orphans
    requires id in s.entries && s.entries[id].reader.None?
    ensures Accounted(Step(s, Register(id, h)), orphans)
  {
    assert h !in s.aborted;
  }

  lemma OrphanAccounts(s: State, id: bytes, h: nat, orphans: map<bytes, nat>)
    requires Accounted(s, orphans) && h !in s.owner && id !in orphans && id !in s.entries
    ensures Accounted(Step(s, Register(id, h)), orphans[id := h])
  {
    assert h !in s.aborted;
  }

  /** A register where a reader runs already makes two. */
  lemma RegisterDoubles(s: State, id: bytes, h: nat, orphans: map<bytes, nat>)
    requires Accounted(s, orphans) && h !in s.owner
    requires id in orphans || (id in s.entries && s.entries[id].reader.Some?)
    ensures !Single(Step(s, Register(id, h)))
  {
    var t := Step(s, Register(id, h));
    var k := if id in orphans then orphans[id] else s.entries[id].reader.value;
    assert h !in s.aborted;
    assert Running(t, h, id) && Running(t, k, id) && h != k;
  }

  /** Where a register is clean, in the terms of the registry. */
  lemma CleanIsBare(run: Run, id: bytes)
    ensures id in Last(run).entries <==> !LifeOf(run, id).Absent?
    ensures LifeOf(run, id).Absent? || Free(run, id) <==>
            (id in Last(run).entries ==> Last(run).entries[id].reader.None?)
  {
    RegistryShowsLife(run, id);
    if !LifeOf(run, id).Absent? {
      FreeIsBare(run, id);
    }
  }

  lemma CleanCallAccounts(run: Run)
    requires run.Then? && Fresh(Last(run.prev), run.call) && Accounted(Last(run.prev), Orphans(run.prev))
    requires run.call.Register? ==>
               && (LifeOf(run.prev, run.call.id).Absent? || Free(run.prev, run.call.id))
               && run.call.id !in Orphans(run.prev)
    ensures Accounted(Last(run), Orphans(run))
  {
    AlwaysSettled(run.prev);
    var s, orphans := Last(run.prev), Orphans(run.prev);
    hide Accounted, Step, Settled;
    match run.call
    case Register(id, h) =>
      CleanIsBare(run.prev, id);
      if id in s.entries {
        KnownAccounts(s, id, h, orphans);
      } else {
        OrphanAccounts(s, id, h, orphans);
      }
    case Cleanup(seen) => CleanupAccounts(s, seen, orphans);
    case Acquire(id, bound) => AcquireAccounts(s, id, bound, orphans);
    case Detach(id, now) => DetachAccounts(s, id, now, orphans);
  }

  lemma {:induction false} CleanIsAccounted(run: Run)
    requires FreshHandles(run) && Clean(run)
    ensures Accounted(Last(run), Orphans(run))
  {
    if run.Then? {
      CleanIsAccounted(run.prev);
      CleanCallAccounts(run);
    }
  }

  /** No id ever has two running readers, if and only if callers register cleanly. */
  lemma {:induction false} SingleExactly(run: Run)
    requires FreshHandles(run)
    ensures AlwaysSingle(run) <==> Clean(run)
  {
    if Clean(run) {
      CleanIsAccounted(run);
      AccountedIsSingle(Last(run), Orphans(run));
    }
    if run.Then? {
      SingleExactly(run.prev);
      if Clean(run.prev) && !Clean(run) {
        CleanIsAccounted(run.prev);
        CleanIsBare(run.prev, run.call.id);
        hide Accounted, Step, Single, Free, LifeOf;
        RegisterDoubles(Last(run.prev), run.call.id, run.call.handle, Orphans(run.prev));
      }
    }
  }

  /** A running reader that no entry knows. */
  ghost predicate Forgotten(s: State, h: nat) {
    h !in s.aborted && forall id :: id in s.entries ==> s.entries[id].reader != Some(h)
  }

  lemma StaysForgotten(s: State, c: Call, h: nat)
    requires Forgotten(s, h) && (c.Register? ==> c.handle != h)
    ensures Forgotten(Step(s, c), h)
  {
  }

  /** A forgotten reader is never stopped. */
  lemma {:induction false} ForgottenReaderRuns(run: Run, calls: seq<Call>, h: nat)
    requires Forgotten(Last(run), h)
    requires forall c :: c in calls && c.Register? ==> c.handle != h
    ensures Forgotten(Last(Extended(run, calls)), h)
  {
    if calls != [] {
      var n := |calls| - 1;
      ForgottenReaderRuns(run, calls[..n], h);
      assert calls[n] in calls;
      StaysForgotten(Last(Extended(run, calls[..n])), calls[n], h);
      hide Forgotten, Step;
    }
  }

  /** Two clients that acquire the same id and then both register: the first reader runs
      on, whatever is called afterwards. */
  lemma OverwrittenReaderRuns(id: bytes, socket: nat, calls: seq<Call>)
    requires forall c :: c in calls && c.Register? ==> c.handle != 1
    ensures var run := Then(Then(Then(Then(Start, Acquire(id, Some(socket))), Acquire(id, None)), Register(id, 1)), Register(id, 2));
            1 in Last(run).owner && 1 !in Last(Extended(run, calls)).aborted
  {
    var r1 := Then(Start, Acquire(id, Some(socket)));
    var r2 := Then(r1, Acquire(id, None));
    var r3 := Then(r2, Register(id, 1));
    var r4 := Then(r3, Register(id, 2));
    assert Last(r1) == State(map[id := Entry(socket, Active, None, None)], {}, map[]) by {
      assert Last(Start) == State(map[], {}, map[]);
    }
    assert Last(r2) == Last(r1);
    assert Last(r3) == State(map[id := Entry(socket, Active, None, Some(1))], {}, map[1 := id]);
    assert Last(r4).entries == map[id := Entry(socket, Active, None, Some(2))];
    ForgottenReaderRuns(r4, calls, 1);
  }

  /** One register per acquire is not enough once the id has lapsed: a reader registered
      then is known to no entry, and the next client's reader runs beside it. */
  lemma LapsedIdGetsTwo(id: bytes, socket: nat, other: nat)
    ensures var lapsed := Then(Then(Then(Start, Acquire(id, Some(socket))), Detach(id, 0)), Cleanup(EXPIRE_TTL));
            var again := Then(Then(lapsed, Register(id, 1)), Acquire(id, Some(other)));
            var s := Last(Then(again, Register(id, 2)));
            && FirstSince(lapsed, id) && LifeOf(lapsed, id).Absent?
            && FirstSince(again, id) && !LifeOf(again, id).Absent?
            && Running(s, 1, id) && Running(s, 2, id)
  {
    var r1 := Then(Start, Acquire(id, Some(socket)));
    var r2 := Then(r1, Detach(id, 0));
    var r3 := Then(r2, Cleanup(EXPIRE_TTL));
    var r4 := Then(r3, Register(id, 1));
    var r5 := Then(r4, Acquire(id, Some(other)));
    assert Last(Start) == State(map[], {}, map[]);
    assert Last(r1) == State(map[id := Entry(socket, Active, None, None)], {}, map[]);
    assert Last(r2) == State(map[id := Entry(socket, Expiring, Some(EXPIRE_TTL), None)], {}, map[]);
    assert Last(r3) == State(map[], {}, map[]);
    assert Last(r4) == State(map[], {}, map[1 := id]);
    assert Last(r5) == State(map[id := Entry(other, Active, None, None)], {}, map[1 := id]);
    assert LifeOf(r1, id) == InUse(socket) && LifeOf(r2, id) == Idle(socket, 0);
    assert LifeOf(r3, id) == Absent && LifeOf(r4, id) == Absent && LifeOf(r5, id) == InUse(other);
    assert FirstSince(r1, id) && FirstSince(r3, id);
  }
}
