/** The two-way relay with an idle and a lifetime limit, under every schedule. */
module Relay {
  import opened Bytes

  const BUFFER: nat := 8192

  datatype Limits = Limits(idle: Option<nat>, maxLifetime: Option<nat>)

  /** What is done to one side's output. */
  datatype Action = Write(data: bytes) | Shutdown

  /** One side: the bytes read from it, whether it has ended, and what was done to its output. */
  datatype Side = Side(read: bytes, done: bool, output: seq<Action>)

  datatype Outcome = Finished(aToB: nat, bToA: nat) | IdleTimeout | LifetimeTimeout | IoError

  datatype State = State(
    a: Side, b: Side, aToB: nat, bToA: nat,
    started: nat, clock: nat, idleDeadline: nat, outcome: Option<Outcome>)

  /** What a read of one side brings: data, end of stream (no data), or an error. */
  datatype Read = Got(data: bytes) | ReadFailed

  /** One turn of the loop: the branch that fires and when. After a read, the data is
      written (or the other side shut down), which takes until `later` and may fail, a
      write after `partial` bytes. */
  datatype Turn =
    | IdleFires(now: nat)
    | LifetimeFires(now: nat)
    | ReadA(now: nat, read: Read, later: nat, ok: bool, partial: nat)
    | ReadB(now: nat, read: Read, later: nat, ok: bool, partial: nat)

  function Started(limits: Limits, now: nat): State {
    State(Side([], false, []), Side([], false, []), 0, 0, now, now,
          now + if limits.idle.Some? then limits.idle.value else 0, None)
  }

  /** Branches are guarded, timers fire at or after their deadline, and time passes. */
  predicate Possible(s: State, limits: Limits, t: Turn) {
    && s.outcome.None? && !(s.a.done && s.b.done) && s.clock <= t.now
    && match t
       case IdleFires(now) => limits.idle.Some? && s.idleDeadline <= now
       case LifetimeFires(now) => limits.maxLifetime.Some? && s.started + limits.maxLifetime.value <= now
       case ReadA(now, read, later, _, _) => !s.a.done && now <= later && (read.Got? ==> |read.data| <= BUFFER)
       case ReadB(now, read, later, _, _) => !s.b.done && now <= later && (read.Got? ==> |read.data| <= BUFFER)
  }

  /** The side that was read, the side that is written, and how many bytes were relayed. */
  function Relayed(reader: Side, writer: Side, data: bytes, ok: bool, partial: nat): (Side, Side, nat) {
    if data == [] then (reader.(done := true), if ok then writer.(output := writer.output + [Shutdown]) else writer, 0)
    else
      (reader.(read := reader.read + data),
       writer.(output := writer.output + [Write(if ok then data else data[..Min(partial, |data|)])]),
       if ok then |data| else 0)
  }

  function Settle(s: State): State {
    if s.outcome.None? && s.a.done && s.b.done then s.(outcome := Some(Finished(s.aToB, s.bToA))) else s
  }

  function Deadline(s: State, limits: Limits, later: nat, n: nat): nat {
    if limits.idle.Some? && n > 0 then later + limits.idle.value else s.idleDeadline
  }

  function Step(s: State, limits: Limits, t: Turn): State {
    match t
    case IdleFires(now) => s.(clock := now, outcome := Some(IdleTimeout))
    case LifetimeFires(now) => s.(clock := now, outcome := Some(LifetimeTimeout))
    case ReadA(_, ReadFailed, later, _, _) => s.(clock := later, outcome := Some(IoError))
    case ReadB(_, ReadFailed, later, _, _) => s.(clock := later, outcome := Some(IoError))
    case ReadA(_, Got(data), later, ok, partial) =>
      var (a, b, n) := Relayed(s.a, s.b, data, ok, partial);
      var s' := s.(a := a, b := b, aToB := s.aToB + n, clock := later, idleDeadline := Deadline(s, limits, later, n));
      if ok then Settle(s') else s'.(outcome := Some(IoError))
    case ReadB(_, Got(data), later, ok, partial) =>
      var (b, a, n) := Relayed(s.b, s.a, data, ok, partial);
      var s' := s.(a := a, b := b, bToA := s.bToA + n, clock := later, idleDeadline := Deadline(s, limits, later, n));
      if ok then Settle(s') else s'.(outcome := Some(IoError))
  }

  // ---------------------------------------------------------------- the loop

  function RunOf(limits: Limits, start: nat, turns: seq<Turn>): State {
    if turns == [] then Started(limits, start)
    else Step(RunOf(limits, start, turns[..|turns| - 1]), limits, turns[|turns| - 1])
  }

  predicate IsRun(limits: Limits, start: nat, turns: seq<Turn>) {
    turns != [] ==>
      var n := |turns| - 1;
      IsRun(limits, start, turns[..n]) && Possible(RunOf(limits, start, turns[..n]), limits, turns[n])
  }

  lemma {:induction false} RunsAreOpen(limits: Limits, start: nat, turns: seq<Turn>, i: nat)
    requires IsRun(limits, start, turns) && i < |turns|
    ensures Possible(RunOf(limits, start, turns[..i]), limits, turns[i])
  {
    var n := |turns| - 1;
    if i < n {
      RunsAreOpen(limits, start, turns[..n], i);
      assert turns[..n][..i] == turns[..i];
    }
  }

  /** End of stream shuts the other side down; data is written to it. */
  method Transfer(reader: Side, writer: Side, data: bytes, ok: bool, partial: nat) returns (r: Side, w: Side, n: nat)
    ensures (r, w, n) == Relayed(reader, writer, data, ok, partial)
  {
    r, w, n := reader, writer, 0;
    if data == [] {
      r := r.(done := true);
      if ok {
        w := w.(output := w.output + [Shutdown]);
      }
      return;
    }
    r := r.(read := r.read + data);
    w := w.(output := w.output + [Write(if ok then data else data[..Min(partial, |data|)])]);
    if ok {
      n := |data|;
    }
  }

  method TakeTurn(limits: Limits, before: State, turn: Turn) returns (s: State)
    requires before.outcome.None?
    ensures s == Step(before, limits, turn)
  {
    hide Relayed;
    s := before;
    match turn {
      case IdleFires(now) =>
        s := s.(clock := now, outcome := Some(IdleTimeout));
        return;
      case LifetimeFires(now) =>
        s := s.(clock := now, outcome := Some(LifetimeTimeout));
        return;
      case _ =>
    }
    s := s.(clock := turn.later);
    if turn.read.ReadFailed? {
      s := s.(outcome := Some(IoError));
      return;
    }
    var n: nat;
    if turn.ReadA? {
      var a, b;
      a, b, n := Transfer(s.a, s.b, turn.read.data, turn.ok, turn.partial);
      s := s.(a := a, b := b, aToB := s.aToB + n);
    } else {
      var a, b;
      b, a, n := Transfer(s.b, s.a, turn.read.data, turn.ok, turn.partial);
      s := s.(a := a, b := b, bToA := s.bToA + n);
    }
    if limits.idle.Some? && n > 0 {
      s := s.(idleDeadline := turn.later + limits.idle.value);
    }
    if !turn.ok {
      s := s.(outcome := Some(IoError));
    } else if s.a.done && s.b.done {
      s := s.(outcome := Some(Finished(s.aToB, s.bToA)));
    }
  }

  /** The loop itself, on a schedule of turns. */
  method Copy(limits: Limits, start: nat, turns: seq<Turn>) returns (s: State)
    requires IsRun(limits, start, turns)
    ensures s == RunOf(limits, start, turns)
  {
    hide Step;
    s := Started(limits, start);
    assert turns[..0] == [];
    for i := 0 to |turns|
      invariant s == RunOf(limits, start, turns[..i])
    {
      assert turns[..i + 1][..i] == turns[..i];
      RunsAreOpen(limits, start, turns, i);
      s := TakeTurn(limits, s, turns[i]);
    }
    assert turns[..|turns|] == turns;
  }

  // ---------------------------------------------------------------- conservation

  function WrittenBytes(output: seq<Action>): bytes {
    if output == [] then []
    else
      var k := |output| - 1;
      WrittenBytes(output[..k]) + if output[k].Write? then output[k].data else []
  }

  predicate ShutLast(output: seq<Action>) {
    forall i :: 0 <= i < |output| && output[i].Shutdown? ==> i == |output| - 1
  }

  lemma WrittenGrows(output: seq<Action>, x: Action)
    ensures WrittenBytes(output + [x]) == WrittenBytes(output) + if x.Write? then x.data else []
  {
    assert (output + [x])[..|output|] == output;
  }

  /** One direction: nothing lost, invented or reordered, and shut down only after the end. */
  ghost predicate Carried(reader: Side, writer: Side, count: nat, broken: bool) {
    var w := WrittenBytes(writer.output);
    && w <= reader.read && count <= |w|
    && (!broken ==> w == reader.read && count == |w|)
    && ShutLast(writer.output)
    && (Shutdown in writer.output ==> reader.done)
    && (reader.done && !broken ==> Shutdown in writer.output)
  }

  lemma EndCarries(reader: Side, writer: Side, count: nat)
    requires Carried(reader, writer, count, false) && !reader.done
    ensures Carried(reader.(done := true), writer.(output := writer.output + [Shutdown]), count, false)
    ensures Carried(reader.(done := true), writer, count, true)
  {
    WrittenGrows(writer.output, Shutdown);
    hide WrittenBytes;
    assert (writer.output + [Shutdown])[|writer.output|] == Shutdown;
  }

  lemma DataCarries(reader: Side, writer: Side, count: nat, data: bytes, x: bytes)
    requires Carried(reader, writer, count, false) && !reader.done && x <= data
    ensures var r, w := reader.(read := reader.read + data), writer.(output := writer.output + [Write(x)]);
            Carried(r, w, count, true) && (x == data ==> Carried(r, w, count + |data|, false))
  {
    WrittenGrows(writer.output, Write(x));
    hide WrittenBytes;
    assert reader.read + x <= reader.read + data;
  }

  lemma RelayCarries(reader: Side, writer: Side, count: nat, data: bytes, ok: bool, partial: nat)
    requires Carried(reader, writer, count, false) && !reader.done
    ensures var (r, w, n) := Relayed(reader, writer, data, ok, partial);
            Carried(r, w, count + n, !ok) && w.done == writer.done && w.read == writer.read && r.output == reader.output
  {
    hide Carried;
    if data == [] {
      EndCarries(reader, writer, count);
    } else {
      DataCarries(reader, writer, count, data, if ok then data else data[..Min(partial, |data|)]);
    }
  }

  /** The turn read from `a`, and what it did to `b` failed. */
  predicate BreaksB(t: Turn) {
    t.ReadA? && t.read.Got? && !t.ok
  }

  predicate BreaksA(t: Turn) {
    t.ReadB? && t.read.Got? && !t.ok
  }

  /** Both directions are carried, the broken ones up to a prefix, and outcomes say what
      they mean. */
  ghost predicate Conserved(s: State, brokenB: bool, brokenA: bool) {
    && Carried(s.a, s.b, s.aToB, brokenB)
    && Carried(s.b, s.a, s.bToA, brokenA)
    && (brokenA || brokenB ==> s.outcome == Some(IoError))
    && (s.outcome.Some? && s.outcome.value.Finished? ==> s.a.done && s.b.done && s.outcome.value == Finished(s.aToB, s.bToA))
  }

  lemma SameCarried(r1: Side, w1: Side, r2: Side, w2: Side, count: nat, broken: bool)
    requires Carried(r1, w1, count, broken) && r1.read == r2.read && r1.done == r2.done && w1.output == w2.output
    ensures Carried(r2, w2, count, broken)
  {
  }

  lemma StepConserves(s: State, limits: Limits, t: Turn)
    requires Conserved(s, false, false) && Possible(s, limits, t)
    ensures Conserved(Step(s, limits, t), BreaksB(t), BreaksA(t))
  {
    hide Carried, Relayed;
    var s' := Step(s, limits, t);
    match t
    case ReadA(_, Got(data), later, ok, partial) =>
      RelayCarries(s.a, s.b, s.aToB, data, ok, partial);
      SameCarried(s.b, s.a, s'.b, s'.a, s.bToA, false);
    case ReadB(_, Got(data), later, ok, partial) =>
      RelayCarries(s.b, s.a, s.bToA, data, ok, partial);
      SameCarried(s.a, s.b, s'.a, s'.b, s.aToB, false);
    case _ =>
  }

  /** Conservation over every schedule: each side is written exactly the bytes read from
      the other, in order, and counted; it is shut down at most once, after the other has
      ended, and never written afterwards; success means both have ended. Only where a
      write or shutdown failed what was written is a prefix; the other direction is exact
      then too, and both are after a failed read or a timeout. */
  lemma {:induction false} Conservation(limits: Limits, start: nat, turns: seq<Turn>)
    requires IsRun(limits, start, turns)
    ensures var n := |turns|;
            Conserved(RunOf(limits, start, turns), n > 0 && BreaksB(turns[n - 1]), n > 0 && BreaksA(turns[n - 1]))
  {
    if turns != [] {
      var n := |turns| - 1;
      Conservation(limits, start, turns[..n]);
      StepConserves(RunOf(limits, start, turns[..n]), limits, turns[n]);
    }
  }

  // ---------------------------------------------------------------- outcomes

  predicate Reads(t: Turn, fromA: bool) {
    if fromA then t.ReadA? else t.ReadB?
  }

  /** All data the turns read from one side. */
  function ReadFrom(turns: seq<Turn>, fromA: bool): bytes {
    if turns == [] then []
    else
      var n := |turns| - 1;
      ReadFrom(turns[..n], fromA) + if Reads(turns[n], fromA) && turns[n].read.Got? then turns[n].read.data else []
  }

  /** Some turn read the end of one side. */
  predicate HasEnded(turns: seq<Turn>, fromA: bool) {
    turns != [] &&
    var n := |turns| - 1;
    HasEnded(turns[..n], fromA) || (Reads(turns[n], fromA) && turns[n].read == Got([]))
  }

  /** A read failed, or what was done with it to the other side. */
  predicate Fails(t: Turn) {
    (t.ReadA? || t.ReadB?) && (t.read.ReadFailed? || !t.ok)
  }

  lemma StepReads(s: State, limits: Limits, t: Turn)
    requires Possible(s, limits, t)
    ensures var s' := Step(s, limits, t);
            && s'.a.read == s.a.read + (if Reads(t, true) && t.read.Got? then t.read.data else [])
            && s'.b.read == s.b.read + (if Reads(t, false) && t.read.Got? then t.read.data else [])
            && (s'.a.done <==> s.a.done || (Reads(t, true) && t.read == Got([])))
            && (s'.b.done <==> s.b.done || (Reads(t, false) && t.read == Got([])))
  {
  }

  lemma StepDecides(s: State, limits: Limits, t: Turn)
    requires Possible(s, limits, t)
    ensures var s' := Step(s, limits, t);
            && (s'.outcome == Some(IdleTimeout) <==> t.IdleFires?)
            && (s'.outcome == Some(LifetimeTimeout) <==> t.LifetimeFires?)
            && (s'.outcome == Some(IoError) <==> Fails(t))
            && (s'.outcome == Some(Finished(s'.aToB, s'.bToA)) <==> s'.a.done && s'.b.done && !Fails(t))
            && (s'.outcome.None? <==> !t.IdleFires? && !t.LifetimeFires? && !Fails(t) && !(s'.a.done && s'.b.done))
  {
  }

  lemma {:induction false} ReadsAreTurns(limits: Limits, start: nat, turns: seq<Turn>)
    requires IsRun(limits, start, turns)
    ensures var s := RunOf(limits, start, turns);
            && s.a.read == ReadFrom(turns, true) && s.b.read == ReadFrom(turns, false)
            && (s.a.done <==> HasEnded(turns, true)) && (s.b.done <==> HasEnded(turns, false))
  {
    if turns != [] {
      var n := |turns| - 1;
      ReadsAreTurns(limits, start, turns[..n]);
      StepReads(RunOf(limits, start, turns[..n]), limits, turns[n]);
      hide Step, Reads, Possible;
    }
  }

  /** The outcome of every schedule, by its turns: a timer that fires ends the relay with its
      timeout, a failure with an error, the end of both sides with the bytes read from each;
      and nothing else ends it. */
  lemma OutcomeExactly(limits: Limits, start: nat, turns: seq<Turn>)
    requires IsRun(limits, start, turns) && turns != []
    ensures var s, t := RunOf(limits, start, turns), turns[|turns| - 1];
            var ended := HasEnded(turns, true) && HasEnded(turns, false);
            && (s.outcome == Some(IdleTimeout) <==> t.IdleFires?)
            && (s.outcome == Some(LifetimeTimeout) <==> t.LifetimeFires?)
            && (s.outcome == Some(IoError) <==> Fails(t))
            && (s.outcome == Some(Finished(|ReadFrom(turns, true)|, |ReadFrom(turns, false)|)) <==> ended && !Fails(t))
            && (s.outcome.None? <==> !t.IdleFires? && !t.LifetimeFires? && !Fails(t) && !ended)
  {
    var n := |turns| - 1;
    var s := RunOf(limits, start, turns);
    StepDecides(RunOf(limits, start, turns[..n]), limits, turns[n]);
    ReadsAreTurns(limits, start, turns);
    Conservation(limits, start, turns);
    hide Step, Possible, Fails, HasEnded, ReadFrom, WrittenBytes, ShutLast, IsRun;
  }

  // ---------------------------------------------------------------- limits

  /** When the last byte was relayed, or the start. */
  function LastTransfer(start: nat, turns: seq<Turn>): nat {
    if turns == [] then start
    else
      var n := |turns| - 1;
      var t := turns[n];
      if (t.ReadA? || t.ReadB?) && t.read.Got? && t.read.data != [] && t.ok then t.later
      else LastTransfer(start, turns[..n])
  }

  lemma {:induction false} DeadlineFollowsTransfers(limits: Limits, start: nat, turns: seq<Turn>)
    requires IsRun(limits, start, turns) && limits.idle.Some?
    ensures var s := RunOf(limits, start, turns);
            s.idleDeadline == LastTransfer(start, turns) + limits.idle.value && s.started == start
  {
    if turns != [] {
      DeadlineFollowsTransfers(limits, start, turns[..|turns| - 1]);
    }
  }

  lemma {:induction false} StartIsKept(limits: Limits, start: nat, turns: seq<Turn>)
    ensures RunOf(limits, start, turns).started == start
  {
    if turns != [] {
      StartIsKept(limits, start, turns[..|turns| - 1]);
    }
  }

  /** A timer that is due does not cut the relay off: a transfer may last past the lifetime,
      however long that is, and the next turn still reads and relays. */
  lemma LifetimeCanPass(start: nat, lifetime: nat, over: nat, there: bytes, back: bytes)
    requires 0 < |there| <= BUFFER && 0 < |back| <= BUFFER && over > 0
    ensures var limits, late := Limits(None, Some(lifetime)), start + lifetime + over;
            var turns := [ReadA(start, Got(there), late, true, 0), ReadB(late, Got(back), late, true, 0)];
            var s := RunOf(limits, start, turns);
            && IsRun(limits, start, turns) && s.outcome.None? && s.clock > start + lifetime
            && s.aToB == |there| && s.bToA == |back|
  {
    var limits, late := Limits(None, Some(lifetime)), start + lifetime + over;
    var t1, t2 := ReadA(start, Got(there), late, true, 0), ReadB(late, Got(back), late, true, 0);
    assert [t1, t2][..1] == [t1] && [t1][..0] == [];
    assert RunOf(limits, start, []) == Started(limits, start);
    assert RunOf(limits, start, [t1]) == Step(Started(limits, start), limits, t1);
    assert IsRun(limits, start, [t1]);
  }

  /** A run ends with a timeout only when the limit is set and has really passed: nothing
      relayed for `idle`, or `max_lifetime` since the start. */
  lemma TimeoutsAreEarned(limits: Limits, start: nat, turns: seq<Turn>)
    requires IsRun(limits, start, turns)
    ensures var s := RunOf(limits, start, turns);
            && (s.outcome == Some(IdleTimeout) ==> limits.idle.Some? && LastTransfer(start, turns) + limits.idle.value <= s.clock)
            && (s.outcome == Some(LifetimeTimeout) ==> limits.maxLifetime.Some? && start + limits.maxLifetime.value <= s.clock)
  {
    if turns != [] {
      var n := |turns| - 1;
      StartIsKept(limits, start, turns[..n]);
      if limits.idle.Some? {
        DeadlineFollowsTransfers(limits, start, turns[..n]);
      }
    }
  }
}
