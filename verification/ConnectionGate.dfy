/** The connection gate: a shared counter raised by a compare-and-swap loop and lowered
    when a permit is dropped, under every interleaving of threads. */
module ConnectionGate {
  const U32_MAX: nat := 0xFFFF_FFFF

  /** A thread inside `try_acquire`: when its call began, the counter value it last read,
      and when it read it. Times count the steps of the run. */
  datatype Attempt = Attempt(began: nat, current: nat, read: nat)

  datatype State = State(active: nat, permits: set<nat>, attempts: map<nat, Attempt>, steps: nat)

  datatype Event =
    | Load(thread: nat)
    | Exchange(thread: nat, spurious: bool, permit: nat)
    | Refuse(thread: nat)
    | Drop(permit: nat)

  /** An exchange that fails, for whatever reason, hands back the value it saw. */
  predicate Wins(s: State, e: Event)
    requires e.Exchange? && e.thread in s.attempts
  {
    !e.spurious && s.active == s.attempts[e.thread].current
  }

  predicate Possible(s: State, max: nat, e: Event) {
    match e
    case Load(t) => t !in s.attempts
    case Exchange(t, _, permit) => t in s.attempts && s.attempts[t].current < max && permit !in s.permits
    case Refuse(t) => t in s.attempts && s.attempts[t].current >= max
    case Drop(permit) => permit in s.permits
  }

  /** `AtomicU32::fetch_sub`, which wraps. */
  function Less(n: nat): nat {
    if n == 0 then U32_MAX else n - 1
  }

  function More(n: nat): nat {
    if n == U32_MAX then 0 else n + 1
  }

  function Step(s: State, e: Event): State {
    var s' := s.(steps := s.steps + 1);
    match e
    case Load(t) => s'.(attempts := s.attempts[t := Attempt(s.steps, s.active, s.steps)])
    case Exchange(t, spurious, permit) =>
      if t !in s.attempts then s'
      else if Wins(s, e) then s'.(active := More(s.active), permits := s.permits + {permit}, attempts := s.attempts - {t})
      else s'.(attempts := s.attempts[t := s.attempts[t].(current := s.active, read := s.steps)])
    case Refuse(t) => s'.(attempts := s.attempts - {t})
    case Drop(permit) => s'.(active := Less(s.active), permits := s.permits - {permit})
  }

  datatype Run = Start | Then(prev: Run, event: Event)

  function Last(run: Run): State {
    if run.Start? then State(0, {}, map[], 0) else Step(Last(run.prev), run.event)
  }

  predicate IsRun(run: Run, max: nat) {
    run.Then? ==> IsRun(run.prev, max) && Possible(Last(run.prev), max, run.event)
  }

  /** The state before step `n`. */
  function At(run: Run, n: nat): State {
    if run.Start? || Last(run).steps <= n then Last(run) else At(run.prev, n)
  }

  /** The counter is the number of live permits and never passes the limit. */
  predicate Exact(s: State, max: nat) {
    s.active == |s.permits| <= max
  }

  lemma {:induction false} CounterIsExact(run: Run, max: nat)
    requires IsRun(run, max) && max <= U32_MAX
    ensures Exact(Last(run), max)
    ensures run.Then? && run.event.Drop? ==> Last(run.prev).active > 0
  {
    if run.Then? {
      CounterIsExact(run.prev, max);
      var s, e := Last(run.prev), run.event;
      match e
      case Drop(permit) =>
        assert s.permits == (s.permits - {permit}) + {permit};
      case Exchange(t, _, permit) =>
        if Wins(s, e) {
          assert |s.permits + {permit}| == |s.permits| + 1;
        }
      case _ =>
    }
  }

  /** What every attempt holds is what the counter was at some moment of its call. */
  ghost predicate ReadTruly(run: Run) {
    forall t :: t in Last(run).attempts ==>
      var a := Last(run).attempts[t];
      a.began <= a.read < Last(run).steps && At(run, a.read).active == a.current
  }

  lemma AtEarlier(run: Run, n: nat)
    requires run.Then? && n < Last(run).steps
    ensures n < Last(run.prev).steps ==> At(run, n) == At(run.prev, n)
    ensures n == Last(run.prev).steps ==> At(run, n) == Last(run.prev)
  {
  }

  lemma {:induction false} AttemptsReadTruly(run: Run, max: nat)
    requires IsRun(run, max)
    ensures ReadTruly(run)
  {
    if run.Then? {
      AttemptsReadTruly(run.prev, max);
      var s := Last(run.prev);
      forall t | t in Last(run).attempts
        ensures var a := Last(run).attempts[t];
                a.began <= a.read < Last(run).steps && At(run, a.read).active == a.current
      {
        AtEarlier(run, Last(run).attempts[t].read);
        if t in s.attempts {
          assert At(run.prev, s.attempts[t].read).active == s.attempts[t].current;
        }
      }
    }
  }

  lemma {:induction false} AtIsRun(run: Run, max: nat, n: nat)
    requires IsRun(run, max) && max <= U32_MAX
    ensures Exact(At(run, n), max)
  {
    CounterIsExact(run, max);
    if run.Then? && Last(run).steps > n {
      AtIsRun(run.prev, max, n);
    }
  }

  /** A refusal is justified: at some moment between the start of the call and its end,
      every slot was taken. */
  lemma RefusalIsJustified(run: Run, max: nat)
    requires IsRun(run, max) && max <= U32_MAX && run.Then? && run.event.Refuse?
    ensures var a := Last(run.prev).attempts[run.event.thread];
            && a.began <= a.read < Last(run.prev).steps
            && |At(run.prev, a.read).permits| == max
  {
    AttemptsReadTruly(run.prev, max);
    var a := Last(run.prev).attempts[run.event.thread];
    AtIsRun(run.prev, max, a.read);
  }

  /** A grant is justified too: a slot was free at that very moment. */
  lemma GrantIsJustified(run: Run, max: nat)
    requires IsRun(run, max) && max <= U32_MAX && run.Then? && run.event.Exchange? && Wins(Last(run.prev), run.event)
    ensures |Last(run.prev).permits| < max && |Last(run).permits| == |Last(run.prev).permits| + 1
  {
    CounterIsExact(run.prev, max);
    var s := Last(run.prev);
    assert |s.permits + {run.event.permit}| == |s.permits| + 1;
  }

  /** An exchange wins exactly when it does not fail on its own and the counter has the value the
      thread read; it then makes the permit. */
  lemma ExchangeExactly(run: Run, max: nat, t: nat, spurious: bool, permit: nat)
    requires var e := Exchange(t, spurious, permit); IsRun(Then(run, e), max) && max <= U32_MAX
    ensures var s, s' := Last(run), Last(Then(run, Exchange(t, spurious, permit)));
            && t in s.attempts
            && (permit in s'.permits <==> !spurious && s.active == At(run, s.attempts[t].read).active)
            && (permit in s'.permits ==> s'.active == s.active + 1 && t !in s'.attempts)
            && (permit !in s'.permits ==> s'.active == s.active && t in s'.attempts && s'.attempts[t].current == s.active)
  {
    AttemptsReadTruly(run, max);
    CounterIsExact(run, max);
  }

  /** A thread that nobody interferes with gets a permit while there is one. */
  lemma AloneIsGranted(run: Run, max: nat, t: nat, permit: nat)
    requires IsRun(run, max) && max <= U32_MAX && t !in Last(run).attempts && permit !in Last(run).permits
    requires |Last(run).permits| < max
    ensures var loaded := Then(run, Load(t));
            var won := Then(loaded, Exchange(t, false, permit));
            IsRun(won, max) && Last(won).permits == Last(run).permits + {permit}
  {
    CounterIsExact(run, max);
  }
}
