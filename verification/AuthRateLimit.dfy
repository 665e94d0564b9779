/** Per-address limiting of failed authentications: fixed windows, growing bans, and a
    sweep of the whole table on every call. Times are counted in clock ticks. */
module AuthRateLimit {
  import opened Bytes

  type IpAddr = nat

  datatype Settings = Settings(maxFailures: nat, window: nat, banBase: nat, banMax: nat)

  /** A limiter is only ever built with a positive limit. */
  type Config = s: Settings | s.maxFailures > 0 witness Settings(1, 0, 0, 0)

  datatype IpState = IpState(failures: nat, windowStart: nat, blockedUntil: Option<nat>, banLevel: nat)

  const U32_MAX: nat := 0xFFFF_FFFF

  function Elapsed(now: nat, since: nat): nat {
    if now < since then 0 else now - since
  }

  function Pow2(n: nat): nat {
    if n == 0 then 1 else 2 * Pow2(n - 1)
  }

  function BanLength(c: Config, level: nat): nat {
    Min(c.banBase * Pow2(Min(level, 10)), c.banMax)
  }

  function Raised(level: nat): nat {
    Min(level + 1, U32_MAX)
  }

  // ---------------------------------------------------------------- one entry

  predicate Survives(c: Config, s: IpState, now: nat) {
    || Elapsed(now, s.windowStart) < c.window
    || (s.blockedUntil.Some? && now < s.blockedUntil.value)
    || s.failures > 0
  }

  function Swept(c: Config, o: Option<IpState>, now: nat): Option<IpState> {
    if o.Some? && Survives(c, o.value, now) then o else None
  }

  predicate Blocks(o: Option<IpState>, now: nat) {
    o.Some? && o.value.blockedUntil.Some? && now < o.value.blockedUntil.value
  }

  function Unblocked(o: Option<IpState>, now: nat): Option<IpState> {
    if o.None? || Blocks(o, now) then o else Some(o.value.(blockedUntil := None))
  }

  /** One more failure in the current window, or the first one in a new window. */
  function Counted(c: Config, o: Option<IpState>, now: nat): IpState {
    var s := if o.Some? then o.value else IpState(0, now, None, 0);
    if Elapsed(now, s.windowStart) >= c.window then s.(windowStart := now, failures := 1)
    else s.(failures := s.failures + 1)
  }

  /** The ban that a failure brings, if it brings one. */
  function BanDue(c: Config, o: Option<IpState>, now: nat): Option<nat> {
    var s := Counted(c, o, now);
    if s.failures < c.maxFailures then None else Some(BanLength(c, Raised(s.banLevel)))
  }

  function Failed(c: Config, o: Option<IpState>, now: nat): IpState {
    var s := Counted(c, o, now);
    var ban := BanDue(c, o, now);
    if ban.None? then s
    else IpState(0, now, Some(now + ban.value), Raised(s.banLevel))
  }

  datatype Op = Check | Fail
  datatype Call = Call(op: Op, ip: IpAddr, now: nat)

  /** What a call for any address makes of the entry of `ip`. */
  function EntryAfter(c: Config, o: Option<IpState>, call: Call, ip: IpAddr): Option<IpState> {
    var s := Swept(c, o, call.now);
    if call.ip != ip then s
    else if call.op == Check then Unblocked(s, call.now)
    else Some(Failed(c, s, call.now))
  }

  // ---------------------------------------------------------------- the limiter

  function Lookup(m: map<IpAddr, IpState>, ip: IpAddr): Option<IpState> {
    if ip in m then Some(m[ip]) else None
  }

  class Limiter {
    const config: Config
    var states: map<IpAddr, IpState>

    constructor (config: Config)
      ensures this.config == config && states == map[]
    {
      this.config := config;
      states := map[];
    }

    method CleanupExpired(now: nat)
      modifies this
      ensures forall ip :: Lookup(states, ip) == Swept(config, Lookup(old(states), ip), now)
    {
      states := map ip | ip in states && Survives(config, states[ip], now) :: states[ip];
    }

    method IsBlocked(ip: IpAddr, now: nat) returns (blocked: bool)
      modifies this
      ensures blocked == Blocks(Swept(config, Lookup(old(states), ip), now), now)
      ensures forall a :: Lookup(states, a) == EntryAfter(config, Lookup(old(states), a), Call(Check, ip, now), a)
    {
      CleanupExpired(now);
      if ip in states {
        var state := states[ip];
        if state.blockedUntil.Some? {
          if now < state.blockedUntil.value {
            return true;
          }
          state := state.(blockedUntil := None);
          states := states[ip := state];
        }
      }
      return false;
    }

    method RecordFailure(ip: IpAddr, now: nat) returns (banned: Option<nat>)
      modifies this
      ensures banned == BanDue(config, Swept(config, Lookup(old(states), ip), now), now)
      ensures forall a :: Lookup(states, a) == EntryAfter(config, Lookup(old(states), a), Call(Fail, ip, now), a)
    {
      CleanupExpired(now);
      if ip !in states {
        states := states[ip := IpState(0, now, None, 0)];
      }
      var state := states[ip];
      if Elapsed(now, state.windowStart) >= config.window {
        state := state.(windowStart := now);
        state := state.(failures := 0);
      }
      state := state.(failures := state.failures + 1);
      if state.failures < config.maxFailures {
        states := states[ip := state];
        return None;
      }
      state := state.(failures := 0);
      state := state.(windowStart := now);
      state := state.(banLevel := Raised(state.banLevel));
      var multiplier := Pow2(Min(state.banLevel, 10));
      var ban := Min(config.banBase * multiplier, config.banMax);
      state := state.(blockedUntil := Some(now + ban));
      states := states[ip := state];
      banned := Some(ban);
    }
  }

  // ---------------------------------------------------------------- runs

  datatype Run = Start | Then(prev: Run, call: Call)

  function Clock(run: Run): nat {
    if run.Start? then 0 else run.call.now
  }

  /** The clock never goes back. */
  predicate Timely(run: Run) {
    run.Then? ==> Timely(run.prev) && Clock(run.prev) <= run.call.now
  }

  function Entry(c: Config, run: Run, ip: IpAddr): Option<IpState> {
    if run.Start? then None else EntryAfter(c, Entry(c, run.prev, ip), run.call, ip)
  }

  function Answer(c: Config, run: Run, ip: IpAddr, now: nat): bool {
    Blocks(Swept(c, Entry(c, run, ip), now), now)
  }

  /** The answers the run gave to the checks of `ip`. */
  function Answers(c: Config, run: Run, ip: IpAddr): seq<bool> {
    if run.Start? then []
    else
      var earlier := Answers(c, run.prev, ip);
      if run.call.op == Check && run.call.ip == ip
      then earlier + [Answer(c, run.prev, ip, run.call.now)]
      else earlier
  }

  /** The run with the calls for other addresses deleted. */
  function Only(run: Run, ip: IpAddr): Run {
    if run.Start? then Start
    else if run.call.ip == ip then Then(Only(run.prev, ip), run.call)
    else Only(run.prev, ip)
  }

  function RunOf(calls: seq<Call>): Run {
    if calls == [] then Start else Then(RunOf(calls[..|calls| - 1]), calls[|calls| - 1])
  }

  /** What a call after `run` is told: is the address blocked, did the failure ban it. */
  function Reply(c: Config, run: Run, call: Call): bool {
    if call.op == Check then Answer(c, run, call.ip, call.now)
    else BanDue(c, Swept(c, Entry(c, run, call.ip), call.now), call.now).Some?
  }

  lemma RunGrows(calls: seq<Call>, k: nat)
    requires k < |calls|
    ensures RunOf(calls[..k + 1]) == Then(RunOf(calls[..k]), calls[k])
  {
    assert calls[..k + 1][..k] == calls[..k];
  }

  /** The table holds the entries of the run. */
  ghost predicate Tracks(states: map<IpAddr, IpState>, c: Config, run: Run) {
    forall ip :: Lookup(states, ip) == Entry(c, run, ip)
  }

  /** The limiter makes one call as the entry functions say. */
  method Serve(l: Limiter, ghost run: Run, call: Call) returns (reply: bool)
    requires Tracks(l.states, l.config, run)
    modifies l
    ensures Tracks(l.states, l.config, Then(run, call))
    ensures reply == Reply(l.config, run, call)
  {
    if call.op == Check {
      reply := l.IsBlocked(call.ip, call.now);
    } else {
      var ban := l.RecordFailure(call.ip, call.now);
      reply := ban.Some?;
    }
  }

  ghost predicate Replied(c: Config, calls: seq<Call>, replies: seq<bool>) {
    |replies| <= |calls| && forall i :: 0 <= i < |replies| ==> replies[i] == Reply(c, RunOf(calls[..i]), calls[i])
  }

  lemma RepliedGrows(c: Config, calls: seq<Call>, replies: seq<bool>, reply: bool)
    requires Replied(c, calls, replies) && |replies| < |calls|
    requires reply == Reply(c, RunOf(calls[..|replies|]), calls[|replies|])
    ensures Replied(c, calls, replies + [reply])
  {
    hide Reply, RunOf;
  }

  lemma AllReplied(c: Config, calls: seq<Call>, replies: seq<bool>)
    requires Replied(c, calls, replies) && |replies| == |calls|
    ensures forall i :: 0 <= i < |calls| ==> replies[i] == Reply(c, RunOf(calls[..i]), calls[i])
  {
    hide Reply, RunOf;
  }

  /** The limiter serves every sequence of calls as the run functions say. */
  method Replay(c: Config, calls: seq<Call>) returns (replies: seq<bool>)
    ensures |replies| == |calls|
    ensures forall i :: 0 <= i < |calls| ==> replies[i] == Reply(c, RunOf(calls[..i]), calls[i])
  {
    var l := new Limiter(c);
    replies := [];
    assert calls[..0] == [] && Tracks(l.states, c, RunOf([])) && Replied(c, calls, []);
    hide Tracks, Reply, RunOf, Replied;
    for k := 0 to |calls|
      invariant |replies| == k && l.config == c
      invariant Tracks(l.states, c, RunOf(calls[..k])) && Replied(c, calls, replies)
    {
      RunGrows(calls, k);
      var reply := Serve(l, RunOf(calls[..k]), calls[k]);
      RepliedGrows(c, calls, replies, reply);
      replies := replies + [reply];
    }
    AllReplied(c, calls, replies);
  }

  // ---------------------------------------------------------------- isolation

  /** `full` is what sweeps by other addresses' calls have left of `alone` by time `now`. */
  predicate Faded(c: Config, full: Option<IpState>, alone: Option<IpState>, now: nat) {
    full == alone || (full.None? && !Survives(c, alone.value, now))
  }

  /** A dead entry stays dead, so a sweep at any later time agrees. */
  lemma FadedSweeps(c: Config, full: Option<IpState>, alone: Option<IpState>, now: nat, later: nat)
    requires Faded(c, full, alone, now) && now <= later
    ensures Swept(c, full, later) == Swept(c, alone, later)
  {
  }

  lemma {:induction false} EntriesFade(c: Config, run: Run, ip: IpAddr)
    requires Timely(run)
    ensures Faded(c, Entry(c, run, ip), Entry(c, Only(run, ip), ip), Clock(run))
    ensures Answers(c, run, ip) == Answers(c, Only(run, ip), ip)
  {
    if run.Then? {
      EntriesFade(c, run.prev, ip);
      FadedSweeps(c, Entry(c, run.prev, ip), Entry(c, Only(run.prev, ip), ip), Clock(run.prev), run.call.now);
    }
  }

  /** Isolation: the answers about one address are those of the run in which nobody else
      ever called, although every call sweeps every entry. */
  lemma Isolation(c: Config, run: Run, ip: IpAddr)
    requires Timely(run)
    ensures Answers(c, run, ip) == Answers(c, Only(run, ip), ip)
    ensures forall now :: now >= Clock(run) ==> Answer(c, run, ip, now) == Answer(c, Only(run, ip), ip, now)
  {
    EntriesFade(c, run, ip);
    forall now | now >= Clock(run)
      ensures Answer(c, run, ip, now) == Answer(c, Only(run, ip), ip, now)
    {
      FadedSweeps(c, Entry(c, run, ip), Entry(c, Only(run, ip), ip), Clock(run), now);
    }
  }

  // ---------------------------------------------------------------- what a run did to one address

  datatype Ban = Ban(at: nat, time: nat, length: nat, level: nat)

  /** The times of the failures of one address, and the bans, each with the index of the
      failure that brought it. */
  datatype Log = Log(fails: seq<nat>, bans: seq<Ban>)

  function Logged(c: Config, l: Log, o: Option<IpState>, now: nat): Log {
    var ban := BanDue(c, o, now);
    Log(l.fails + [now],
        if ban.None? then l.bans
        else l.bans + [Ban(|l.fails|, now, ban.value, Raised(Counted(c, o, now).banLevel))])
  }

  function LogAfter(c: Config, l: Log, o: Option<IpState>, call: Call, ip: IpAddr): Log {
    if call.ip == ip && call.op == Fail then Logged(c, l, Swept(c, o, call.now), call.now) else l
  }

  function History(c: Config, run: Run, ip: IpAddr): Log {
    if run.Start? then Log([], [])
    else LogAfter(c, History(c, run.prev, ip), Entry(c, run.prev, ip), run.call, ip)
  }

  function Count(o: Option<IpState>): nat {
    if o.Some? then o.value.failures else 0
  }

  /** Index after the last ban. */
  function Streak(l: Log): nat {
    if l.bans == [] then 0 else l.bans[|l.bans| - 1].at + 1
  }

  predicate Sorted(s: seq<nat>) {
    forall i, j :: 0 <= i < j < |s| ==> s[i] <= s[j]
  }

  /** Failures `i..j` lie within less than a window (or at one instant). */
  predicate Close(c: Config, l: Log, i: nat, j: nat)
    requires i <= j < |l.fails|
  {
    l.fails[j] - l.fails[i] < c.window || l.fails[j] == l.fails[i]
  }

  /** Few of the failures before `first` lie within a window of it. */
  predicate FewBefore(c: Config, l: Log, lo: nat, first: nat)
    requires first < |l.fails|
  {
    forall a :: lo <= a < first && l.fails[first] - l.fails[a] < c.window ==> first - a < c.maxFailures
  }

  /** The counted failures are the last ones; they follow a ban, or started a window. */
  predicate Window(c: Config, s: IpState, l: Log, first: nat)
    requires first < |l.fails|
  {
    && s.windowStart <= l.fails[first]
    && (first > Streak(l) ==> s.windowStart == l.fails[first])
    && FewBefore(c, l, Streak(l), first)
  }

  ghost predicate CountInv(c: Config, o: Option<IpState>, l: Log, now: nat) {
    var k := |l.fails|;
    var f := Count(o);
    && f < c.maxFailures
    && Streak(l) + f <= k
    && (f == 0 ==> Streak(l) == k)
    && Sorted(l.fails)
    && (k > 0 ==> l.fails[k - 1] <= now)
    && (o.Some? ==> o.value.windowStart <= now)
    && (f > 0 ==> Window(c, o.value, l, k - f))
  }

  /** The ban rests on the `maxFailures` failures up to its own, which lie close together. */
  predicate Earned(c: Config, l: Log, b: Ban) {
    && b.at < |l.fails|
    && b.time == l.fails[b.at]
    && c.maxFailures <= b.at + 1
    && Close(c, l, b.at + 1 - c.maxFailures, b.at)
  }

  /** Every ban is earned, by failures that no other ban counts. */
  ghost predicate BansEarned(c: Config, l: Log) {
    && (forall i :: 0 <= i < |l.bans| ==> Earned(c, l, l.bans[i]))
    && (forall i, j :: 0 <= i < j < |l.bans| ==> l.bans[i].at + c.maxFailures <= l.bans[j].at)
  }

  predicate BanWithin(l: Log, lo: nat, hi: nat) {
    exists i :: 0 <= i < |l.bans| && lo <= l.bans[i].at <= hi
  }

  /** Any 2m-1 failures within less than a window contain one that brought a ban. */
  ghost predicate BurstsBanned(c: Config, l: Log) {
    forall a, b :: 0 <= a <= b == a + 2 * c.maxFailures - 2 && b < |l.fails| && l.fails[b] - l.fails[a] < c.window
                   ==> BanWithin(l, a, b)
  }

  lemma SweepKeepsCount(c: Config, o: Option<IpState>, l: Log, now: nat, later: nat)
    requires CountInv(c, o, l, now) && now <= later
    ensures CountInv(c, Swept(c, o, later), l, later)
    ensures CountInv(c, Unblocked(Swept(c, o, later), later), l, later)
  {
  }

  lemma BanKeepsCount(c: Config, o: Option<IpState>, l: Log, now: nat)
    requires CountInv(c, o, l, now) && BanDue(c, o, now).Some?
    ensures CountInv(c, Some(Failed(c, o, now)), Logged(c, l, o, now), now)
  {
    hide BanLength, FewBefore;
  }

  /** The failure joins the window that is open. */
  lemma JoinKeepsCount(c: Config, o: Option<IpState>, l: Log, now: nat)
    requires CountInv(c, o, l, now) && BanDue(c, o, now).None? && Counted(c, o, now).failures > 1
    ensures CountInv(c, Some(Failed(c, o, now)), Logged(c, l, o, now), now)
  {
    var l' := Logged(c, l, o, now);
    hide BanLength;
    var first := |l.fails| - Count(o);
    assert Streak(l') == Streak(l);
    assert Window(c, o.value, l, first);
    assert FewBefore(c, l', Streak(l), first) by {
      assert forall i :: 0 <= i <= first ==> l'.fails[i] == l.fails[i];
    }
  }

  /** The failure starts a window at its own time, or is the first after a ban. */
  lemma OpenKeepsCount(c: Config, o: Option<IpState>, l: Log, now: nat)
    requires CountInv(c, o, l, now) && BanDue(c, o, now).None? && Counted(c, o, now).failures == 1
    ensures CountInv(c, Some(Failed(c, o, now)), Logged(c, l, o, now), now)
  {
    var l' := Logged(c, l, o, now);
    hide BanLength;
    var k, f := |l.fails|, Count(o);
    assert Streak(l') == Streak(l);
    if f > 0 {
      assert now - o.value.windowStart >= c.window;
      assert Window(c, o.value, l, k - f);
      forall a | Streak(l) <= a < k && now - l.fails[a] < c.window
        ensures k - a <= f
      {
      }
    }
    assert FewBefore(c, l', Streak(l), k);
  }

  lemma FailKeepsCount(c: Config, o: Option<IpState>, l: Log, now: nat)
    requires CountInv(c, o, l, now)
    ensures CountInv(c, Some(Failed(c, o, now)), Logged(c, l, o, now), now)
  {
    if BanDue(c, o, now).Some? {
      BanKeepsCount(c, o, l, now);
    } else if Counted(c, o, now).failures == 1 {
      OpenKeepsCount(c, o, l, now);
    } else {
      JoinKeepsCount(c, o, l, now);
    }
  }

  lemma BanIsEarned(c: Config, o: Option<IpState>, l: Log, now: nat)
    requires CountInv(c, o, l, now) && BanDue(c, o, now).Some?
    ensures var l' := Logged(c, l, o, now);
            Earned(c, l', l'.bans[|l.bans|]) && Streak(l) + c.maxFailures <= |l.fails| + 1
  {
    var k := |l.fails|;
    var s := Counted(c, o, now);
    assert s.failures == c.maxFailures;
    var first := k + 1 - c.maxFailures;
    if first < k {
      assert o.Some? && o.value.failures == c.maxFailures - 1;
      assert Logged(c, l, o, now).fails[first] == l.fails[k - o.value.failures];
    }
  }

  lemma EarnedStands(c: Config, l: Log, l': Log, b: Ban)
    requires Earned(c, l, b) && l.fails <= l'.fails
    ensures Earned(c, l', b)
  {
  }

  /** One more failure takes nothing away from the bans there are. */
  lemma BansStayEarned(c: Config, l: Log, now: nat)
    requires BansEarned(c, l)
    ensures BansEarned(c, Log(l.fails + [now], l.bans))
  {
    var l' := Log(l.fails + [now], l.bans);
    hide Earned;
    forall i | 0 <= i < |l.bans|
      ensures Earned(c, l', l'.bans[i])
    {
      EarnedStands(c, l, l', l.bans[i]);
    }
  }

  lemma BansComeBefore(c: Config, l: Log, i: nat)
    requires BansEarned(c, l) && i < |l.bans|
    ensures l.bans[i].at < Streak(l)
  {
    hide Earned;
  }

  lemma BanJoinsEarned(c: Config, l: Log, ban: Ban)
    requires BansEarned(c, l) && Earned(c, l, ban) && Streak(l) + c.maxFailures <= ban.at + 1
    ensures BansEarned(c, Log(l.fails, l.bans + [ban]))
  {
    var l' := Log(l.fails, l.bans + [ban]);
    forall i | 0 <= i < |l.bans|
      ensures l'.bans[i] == l.bans[i] && l.bans[i].at + c.maxFailures <= ban.at
    {
      BansComeBefore(c, l, i);
    }
    hide Earned, Streak;
    forall i | 0 <= i < |l'.bans|
      ensures Earned(c, l', l'.bans[i])
    {
      EarnedStands(c, l, l', l'.bans[i]);
    }
  }

  lemma LoggedIs(c: Config, l: Log, o: Option<IpState>, now: nat)
    ensures var l', due := Logged(c, l, o, now), BanDue(c, o, now);
            && l'.fails == l.fails + [now]
            && (due.None? ==> l'.bans == l.bans)
            && (due.Some? ==> |l'.bans| == |l.bans| + 1 && l'.bans == l.bans + [l'.bans[|l.bans|]])
            && (due.Some? ==> l'.bans[|l.bans|] == Ban(|l.fails|, now, due.value, Raised(Counted(c, o, now).banLevel)))
  {
    hide BanDue, Counted;
  }

  lemma SameStreak(l: Log, l': Log)
    requires l.bans == l'.bans
    ensures Streak(l) == Streak(l')
  {
  }

  lemma FailEarnsBan(c: Config, o: Option<IpState>, l: Log, now: nat)
    requires CountInv(c, o, l, now) && BansEarned(c, l)
    ensures BansEarned(c, Logged(c, l, o, now))
  {
    hide *;
    LoggedIs(c, l, o, now);
    BansStayEarned(c, l, now);
    if BanDue(c, o, now).Some? {
      var l' := Logged(c, l, o, now);
      var ban, grown := l'.bans[|l.bans|], Log(l.fails + [now], l.bans);
      BanIsEarned(c, o, l, now);
      EarnedStands(c, l', grown, ban);
      SameStreak(l, grown);
      BanJoinsEarned(c, grown, ban);
    }
  }

  lemma FailBansBurst(c: Config, o: Option<IpState>, l: Log, now: nat)
    requires CountInv(c, o, l, now) && BurstsBanned(c, l)
    ensures BurstsBanned(c, Logged(c, l, o, now))
  {
    var l' := Logged(c, l, o, now);
    var k := |l.fails|;
    FailKeepsCount(c, o, l, now);
    hide BanDue, Counted, Failed;
    forall a, b | 0 <= a <= b == a + 2 * c.maxFailures - 2 && b < |l'.fails| && l'.fails[b] - l'.fails[a] < c.window
      ensures BanWithin(l', a, b)
    {
      if b < k {
        assert l'.fails[a] == l.fails[a] && l'.fails[b] == l.fails[b];
        assert BanWithin(l, a, b);
        var i :| 0 <= i < |l.bans| && a <= l.bans[i].at <= b;
        assert l'.bans[i] == l.bans[i];
      } else if Streak(l') > a {
        assert l'.bans[|l'.bans| - 1].at == Streak(l') - 1;
      } else {
        assert false;
      }
    }
  }

  lemma CallKeepsCount(c: Config, o: Option<IpState>, l: Log, now: nat, call: Call, ip: IpAddr)
    requires CountInv(c, o, l, now) && now <= call.now
    ensures CountInv(c, EntryAfter(c, o, call, ip), LogAfter(c, l, o, call, ip), call.now)
  {
    SweepKeepsCount(c, o, l, now, call.now);
    if call.ip == ip && call.op == Fail {
      FailKeepsCount(c, Swept(c, o, call.now), l, call.now);
    }
  }

  lemma {:induction false} CountHolds(c: Config, run: Run, ip: IpAddr)
    requires Timely(run)
    ensures CountInv(c, Entry(c, run, ip), History(c, run, ip), Clock(run))
  {
    if run.Then? {
      CountHolds(c, run.prev, ip);
      CallKeepsCount(c, Entry(c, run.prev, ip), History(c, run.prev, ip), Clock(run.prev), run.call, ip);
    }
  }

  lemma {:induction false} EarnedHolds(c: Config, run: Run, ip: IpAddr)
    requires Timely(run)
    ensures BansEarned(c, History(c, run, ip)) && BurstsBanned(c, History(c, run, ip))
  {
    if run.Then? {
      EarnedHolds(c, run.prev, ip);
      if run.call.ip == ip && run.call.op == Fail {
        var o, l, now := Entry(c, run.prev, ip), History(c, run.prev, ip), run.call.now;
        CountHolds(c, run.prev, ip);
        SweepKeepsCount(c, o, l, Clock(run.prev), now);
        FailEarnsBan(c, Swept(c, o, now), l, now);
        FailBansBurst(c, Swept(c, o, now), l, now);
      }
    }
  }

  /** Between calls no counter has reached the limit; every ban rests on a full count of
      close failures that no other ban uses; every burst of 2m-1 failures is answered. */
  lemma Counting(c: Config, run: Run, ip: IpAddr)
    requires Timely(run)
    ensures Count(Entry(c, run, ip)) < c.maxFailures
    ensures BansEarned(c, History(c, run, ip))
    ensures BurstsBanned(c, History(c, run, ip))
  {
    CountHolds(c, run, ip);
    EarnedHolds(c, run, ip);
  }

  // ---------------------------------------------------------------- the bound on bursts is tight

  /** `n` failures at time `t` after `run`. */
  function Failing(run: Run, ip: IpAddr, t: nat, n: nat): Run {
    if n == 0 then run else Then(Failing(run, ip, t, n - 1), Call(Fail, ip, t))
  }

  function Noted(l: Log, t: nat, n: nat): Log {
    if n == 0 then l else var before := Noted(l, t, n - 1); Log(before.fails + [t], before.bans)
  }

  lemma {:induction false} NotedIs(l: Log, t: nat, n: nat)
    ensures var l' := Noted(l, t, n);
            && l'.bans == l.bans && |l'.fails| == |l.fails| + n && l.fails <= l'.fails
            && (forall i :: |l.fails| <= i < |l'.fails| ==> l'.fails[i] == t)
  {
    if n > 0 {
      NotedIs(l, t, n - 1);
    }
  }

  /** After `run` and no later than `t`, the address has this entry and this log. */
  ghost predicate Stands(c: Config, run: Run, ip: IpAddr, t: nat, s: IpState, l: Log) {
    Timely(run) && Clock(run) <= t && Entry(c, run, ip) == Some(s) && History(c, run, ip) == l
  }

  lemma FailIsCounted(c: Config, run: Run, ip: IpAddr, t: nat, s: IpState, l: Log)
    requires Stands(c, run, ip, t, s, l) && Elapsed(t, s.windowStart) < c.window && s.failures + 1 < c.maxFailures
    ensures Stands(c, Then(run, Call(Fail, ip, t)), ip, t, s.(failures := s.failures + 1), Noted(l, t, 1))
  {
    hide BanLength;
    assert Noted(l, t, 0) == l;
  }

  /** The first failure after the window begins the next one. */
  lemma WindowTurns(c: Config, run: Run, ip: IpAddr, t: nat, s: IpState, l: Log)
    requires Stands(c, run, ip, t, s, l) && Elapsed(t, s.windowStart) >= c.window && s.failures > 0 && c.maxFailures >= 2
    ensures Stands(c, Then(run, Call(Fail, ip, t)), ip, t, s.(failures := 1, windowStart := t), Noted(l, t, 1))
  {
    hide BanLength;
    assert Noted(l, t, 0) == l;
  }

  lemma FirstIsCounted(c: Config, ip: IpAddr, t: nat)
    requires c.maxFailures >= 2 && c.window >= 1
    ensures Stands(c, Then(Start, Call(Fail, ip, t)), ip, t, IpState(1, t, None, 0), Log([t], []))
  {
    hide BanLength;
    assert Entry(c, Start, ip) == None && History(c, Start, ip) == Log([], []) && Timely(Start);
    assert [] + [t] == [t];
  }

  lemma LastIsBanned(c: Config, run: Run, ip: IpAddr, t: nat, s: IpState, l: Log) returns (s': IpState, ban: Ban)
    requires Stands(c, run, ip, t, s, l) && Elapsed(t, s.windowStart) < c.window && s.failures + 1 == c.maxFailures
    ensures s'.failures == 0 && s'.windowStart == t && ban.at == |l.fails|
    ensures Stands(c, Then(run, Call(Fail, ip, t)), ip, t, s', Log(l.fails + [t], l.bans + [ban]))
  {
    hide BanLength;
    var call := Call(Fail, ip, t);
    s' := Entry(c, Then(run, call), ip).value;
    ban := Ban(|l.fails|, t, BanLength(c, Raised(s.banLevel)), Raised(s.banLevel));
  }

  lemma NotedSteps(l: Log, t: nat, n: nat)
    requires n > 0
    ensures Noted(Noted(l, t, n - 1), t, 1) == Noted(l, t, n)
  {
    assert Noted(Noted(l, t, n - 1), t, 0) == Noted(l, t, n - 1);
  }

  lemma FailingSteps(run: Run, ip: IpAddr, t: nat, n: nat)
    requires n > 0
    ensures Failing(run, ip, t, n) == Then(Failing(run, ip, t, n - 1), Call(Fail, ip, t)) && Failing(run, ip, t, 0) == run
  {
  }

  /** Failures inside a window that stay below the limit are counted, and nothing else. */
  lemma {:induction false} FailingCounts(c: Config, run: Run, ip: IpAddr, t: nat, n: nat, s: IpState, l: Log)
    requires Stands(c, run, ip, t, s, l) && Elapsed(t, s.windowStart) < c.window && s.failures + n < c.maxFailures
    ensures Stands(c, Failing(run, ip, t, n), ip, t, s.(failures := s.failures + n), Noted(l, t, n))
  {
    hide Stands, Elapsed;
    if n > 0 {
      hide Failing, Noted;
      FailingCounts(c, run, ip, t, n - 1, s, l);
      FailIsCounted(c, Failing(run, ip, t, n - 1), ip, t, s.(failures := s.failures + n - 1), Noted(l, t, n - 1));
      FailingSteps(run, ip, t, n);
      NotedSteps(l, t, n);
    }
  }

  /** The first `m` failures, all at time 0. */
  function BannedRun(c: Config, ip: IpAddr): Run
    requires c.maxFailures >= 2
  {
    Then(Failing(Then(Start, Call(Fail, ip, 0)), ip, 0, c.maxFailures - 2), Call(Fail, ip, 0))
  }

  /** They bring a ban, and with it a new window. */
  lemma FirstBan(c: Config, ip: IpAddr) returns (s: IpState, l: Log)
    requires c.maxFailures >= 2 && c.window >= 1
    ensures Stands(c, BannedRun(c, ip), ip, 0, s, l) && s.failures == 0 && s.windowStart == 0
    ensures |l.fails| == c.maxFailures && |l.bans| == 1 && l.bans[0].at == c.maxFailures - 1
  {
    hide Stands, Failing, Noted;
    var m, first := c.maxFailures, Then(Start, Call(Fail, ip, 0));
    FirstIsCounted(c, ip, 0);
    FailingCounts(c, first, ip, 0, m - 2, IpState(1, 0, None, 0), Log([0], []));
    NotedIs(Log([0], []), 0, m - 2);
    var l' := Noted(Log([0], []), 0, m - 2);
    var ban: Ban;
    s, ban := LastIsBanned(c, Failing(first, ip, 0, m - 2), ip, 0, IpState(m - 1, 0, None, 0), l');
    l := Log(l'.fails + [0], l'.bans + [ban]);
  }

  /** A ban at 0, then m-1 failures in the last tick of the window it began and m-1 in the
      first tick of the next. */
  function TightRun(c: Config, ip: IpAddr): Run
    requires c.maxFailures >= 2 && c.window >= 1
  {
    var before := Failing(BannedRun(c, ip), ip, c.window - 1, c.maxFailures - 1);
    Failing(Then(before, Call(Fail, ip, c.window)), ip, c.window, c.maxFailures - 2)
  }

  function TightLog(l: Log, m: nat, w: nat): Log
    requires m >= 2 && w >= 1
  {
    Noted(Noted(Noted(l, w - 1, m - 1), w, 1), w, m - 2)
  }

  lemma TightTimes(l: Log, m: nat, w: nat)
    requires m >= 2 && w >= 1 && |l.fails| == m
    ensures var l' := TightLog(l, m, w);
            |l'.fails| == 3 * m - 2 && l'.fails[m] == w - 1 && l'.fails[3 * m - 3] == w && l'.bans == l.bans
  {
    hide Noted;
    NotedIs(l, w - 1, m - 1);
    NotedIs(Noted(l, w - 1, m - 1), w, 1);
    NotedIs(Noted(Noted(l, w - 1, m - 1), w, 1), w, m - 2);
  }

  lemma StandsLater(c: Config, run: Run, ip: IpAddr, t: nat, later: nat, s: IpState, l: Log)
    requires Stands(c, run, ip, t, s, l) && t <= later
    ensures Stands(c, run, ip, later, s, l)
  {
  }

  lemma TightHistory(c: Config, ip: IpAddr, s: IpState, l: Log) returns (s': IpState)
    requires c.maxFailures >= 2 && c.window >= 1
    requires Stands(c, BannedRun(c, ip), ip, 0, s, l) && s.failures == 0 && s.windowStart == 0
    ensures Stands(c, TightRun(c, ip), ip, c.window, s', TightLog(l, c.maxFailures, c.window))
  {
    var m, w, banned := c.maxFailures, c.window, BannedRun(c, ip);
    assert Elapsed(w - 1, 0) == w - 1 && Elapsed(w, 0) == w && Elapsed(w, w) == 0;
    hide Stands, Failing, Noted, BannedRun, Elapsed;
    var before, l1 := Failing(banned, ip, w - 1, m - 1), Noted(l, w - 1, m - 1);
    StandsLater(c, banned, ip, 0, w - 1, s, l);
    FailingCounts(c, banned, ip, w - 1, m - 1, s, l);
    StandsLater(c, before, ip, w - 1, w, s.(failures := m - 1), l1);
    WindowTurns(c, before, ip, w, s.(failures := m - 1), l1);
    s' := s.(failures := 1, windowStart := w);
    FailingCounts(c, Then(before, Call(Fail, ip, w)), ip, w, m - 2, s', Noted(l1, w, 1));
    s' := s'.(failures := s'.failures + (m - 2));
  }

  /** 2m-1 is tight, for every limit and window of at least 2: 2m-2 failures less than a
      window apart can go without a ban. */
  lemma BurstBoundIsTight(c: Config, ip: IpAddr)
    requires c.maxFailures >= 2 && c.window >= 2
    ensures var run, m := TightRun(c, ip), c.maxFailures;
            var l, a, b := History(c, run, ip), m, 3 * m - 3;
            && Timely(run) && |l.fails| == b + 1 && b - a + 1 == 2 * m - 2
            && l.fails[b] - l.fails[a] < c.window
            && !BanWithin(l, a, b)
  {
    hide TightRun, TightLog, Timely, History, Entry, Clock, BannedRun;
    var s, l := FirstBan(c, ip);
    var _ := TightHistory(c, ip, s, l);
    TightTimes(l, c.maxFailures, c.window);
  }

  // ---------------------------------------------------------------- bans over time

  predicate Covers(b: Ban, now: nat) {
    b.time <= now < b.time + b.length
  }

  /** The ban is over and so is the window that began with it. */
  predicate Forgettable(c: Config, b: Ban, now: nat) {
    b.time + b.length <= now && b.time + c.window <= now
  }

  ghost predicate BanInv(c: Config, o: Option<IpState>, l: Log, now: nat) {
    var n := |l.bans|;
    && (forall i :: 0 <= i < n ==>
          && l.bans[i].time <= now
          && l.bans[i].length == BanLength(c, l.bans[i].level)
          && (Covers(l.bans[i], now) ==>
                o.Some? && o.value.blockedUntil.Some? && l.bans[i].time + l.bans[i].length <= o.value.blockedUntil.value))
    && (o.None? ==> n == 0 || Forgettable(c, l.bans[n - 1], now))
    && (o.Some? ==>
          && o.value.banLevel <= U32_MAX
          && (o.value.blockedUntil.Some? ==>
                && o.value.banLevel > 0
                && n > 0
                && o.value.blockedUntil.value == l.bans[n - 1].time + l.bans[n - 1].length)
          && (o.value.banLevel > 0 ==> n > 0 && o.value.banLevel == l.bans[n - 1].level)
          && (o.value.banLevel == 0 && n > 0 ==>
                Streak(l) < |l.fails| && Forgettable(c, l.bans[n - 1], l.fails[Streak(l)]))
          && (o.value.banLevel > 0 && Streak(l) < |l.fails| ==> !Forgettable(c, l.bans[n - 1], l.fails[Streak(l)]))
          && (o.value.failures == 0 ==> o.value.banLevel > 0 && o.value.windowStart == l.bans[n - 1].time))
  }

  /** A ban is at the first level again exactly when the address failed again only after the
      ban before was forgettable; else it is one level above. */
  predicate Follows(c: Config, l: Log, b: Ban, b': Ban) {
    && b.at + 1 < |l.fails|
    && b'.level == if Forgettable(c, b, l.fails[b.at + 1]) then 1 else Raised(b.level)
  }

  ghost predicate BansGrow(c: Config, l: Log) {
    && (l.bans != [] ==> l.bans[0].level == 1)
    && (forall i :: 0 < i < |l.bans| ==> Follows(c, l, l.bans[i - 1], l.bans[i]))
  }

  lemma {:induction false} Pow2Grows(a: nat, b: nat)
    requires a <= b
    ensures 1 <= Pow2(a) <= Pow2(b)
    decreases b
  {
    if a < b {
      Pow2Grows(a, b - 1);
    } else if a > 0 {
      Pow2Grows(a - 1, b - 1);
    }
  }

  lemma MulGrows(k: nat, x: nat, y: nat)
    requires x <= y
    ensures k * x <= k * y
  {
  }

  lemma BanLengthGrows(c: Config, a: nat, b: nat)
    requires a <= b
    ensures BanLength(c, a) <= BanLength(c, b)
  {
    Pow2Grows(Min(a, 10), Min(b, 10));
    MulGrows(c.banBase, Pow2(Min(a, 10)), Pow2(Min(b, 10)));
  }

  lemma SweepKeepsBans(c: Config, o: Option<IpState>, l: Log, now: nat, later: nat)
    requires CountInv(c, o, l, now) && BanInv(c, o, l, now) && now <= later
    ensures BanInv(c, Swept(c, o, later), l, later)
    ensures BanInv(c, Unblocked(Swept(c, o, later), later), l, later)
  {
    forall i | 0 <= i < |l.bans| && Covers(l.bans[i], later)
      ensures Covers(l.bans[i], now)
    {
    }
  }

  /** A new ban ends no earlier than any ban that is still running. */
  lemma NewBanOutlasts(c: Config, o: Option<IpState>, l: Log, now: nat, i: nat)
    requires BanInv(c, o, l, now) && BanDue(c, o, now).Some?
    requires i < |l.bans| && Covers(l.bans[i], now)
    ensures l.bans[i].time + l.bans[i].length <= now + BanDue(c, o, now).value
  {
    BanLengthGrows(c, o.value.banLevel, Raised(o.value.banLevel));
  }

  /** An entry that survived the sweep after a ban is of a ban that is not forgettable yet. */
  lemma SurvivorIsRemembered(c: Config, o: Option<IpState>, l: Log, now: nat)
    requires BanInv(c, o, l, now) && o.Some? && Survives(c, o.value, now) && o.value.failures == 0
    ensures l.bans != [] && !Forgettable(c, l.bans[|l.bans| - 1], now)
  {
  }

  lemma CountedKeepsBans(c: Config, o: Option<IpState>, l: Log, now: nat)
    requires CountInv(c, o, l, now) && BanInv(c, o, l, now) && (o.Some? ==> Survives(c, o.value, now))
    requires BanDue(c, o, now).None?
    ensures BanInv(c, Some(Failed(c, o, now)), Logged(c, l, o, now), now)
  {
    hide BanLength, Raised, Covers;
    if o.Some? && o.value.failures == 0 {
      SurvivorIsRemembered(c, o, l, now);
    }
    hide Survives, Forgettable;
    assert Streak(Logged(c, l, o, now)) == Streak(l);
  }

  lemma NewBanKeepsBans(c: Config, o: Option<IpState>, l: Log, now: nat)
    requires CountInv(c, o, l, now) && BanInv(c, o, l, now) && BanDue(c, o, now).Some?
    ensures BanInv(c, Some(Failed(c, o, now)), Logged(c, l, o, now), now)
  {
    hide BanLength, Forgettable;
    forall i | 0 <= i < |l.bans| && Covers(l.bans[i], now)
      ensures l.bans[i].time + l.bans[i].length <= now + BanDue(c, o, now).value
    {
      NewBanOutlasts(c, o, l, now, i);
    }
  }

  lemma FailKeepsBans(c: Config, o: Option<IpState>, l: Log, now: nat)
    requires CountInv(c, o, l, now) && BanInv(c, o, l, now) && (o.Some? ==> Survives(c, o.value, now))
    ensures BanInv(c, Some(Failed(c, o, now)), Logged(c, l, o, now), now)
  {
    hide *;
    if BanDue(c, o, now).Some? {
      NewBanKeepsBans(c, o, l, now);
    } else {
      CountedKeepsBans(c, o, l, now);
    }
  }

  lemma FollowsStands(c: Config, l: Log, l': Log, b: Ban, b': Ban)
    requires Follows(c, l, b, b') && l.fails <= l'.fails
    ensures Follows(c, l', b, b')
  {
    hide Forgettable, Raised;
  }

  lemma NewBanFollows(c: Config, o: Option<IpState>, l: Log, now: nat)
    requires CountInv(c, o, l, now) && BanInv(c, o, l, now) && BanDue(c, o, now).Some?
    requires o.Some? ==> Survives(c, o.value, now)
    ensures var l', n := Logged(c, l, o, now), |l.bans|;
            && |l'.bans| == n + 1
            && (if n == 0 then l'.bans[0].level == 1 else Follows(c, l', l.bans[n - 1], l'.bans[n]))
  {
    hide BanLength;
    if o.Some? && o.value.failures == 0 {
      SurvivorIsRemembered(c, o, l, now);
    }
  }

  /** Bans that were there follow each other as before. */
  lemma OldBansGrow(c: Config, l: Log, l': Log, i: nat)
    requires BansGrow(c, l) && l.fails <= l'.fails && l.bans <= l'.bans && 0 < i < |l.bans|
    ensures Follows(c, l', l'.bans[i - 1], l'.bans[i])
  {
    hide Follows;
    FollowsStands(c, l, l', l.bans[i - 1], l.bans[i]);
  }

  lemma FailKeepsGrowth(c: Config, o: Option<IpState>, l: Log, now: nat)
    requires CountInv(c, o, l, now) && BanInv(c, o, l, now) && BansGrow(c, l)
    requires o.Some? ==> Survives(c, o.value, now)
    ensures BansGrow(c, Logged(c, l, o, now))
  {
    var l', n := Logged(c, l, o, now), |l.bans|;
    LoggedIs(c, l, o, now);
    hide CountInv, BanInv, BanDue, Logged, Follows, Counted;
    if BanDue(c, o, now).Some? {
      NewBanFollows(c, o, l, now);
    }
    forall i | 0 < i < |l'.bans|
      ensures Follows(c, l', l'.bans[i - 1], l'.bans[i])
    {
      if i < n {
        OldBansGrow(c, l, l', i);
      }
    }
  }

  lemma CallKeepsBans(c: Config, o: Option<IpState>, l: Log, now: nat, call: Call, ip: IpAddr)
    requires CountInv(c, o, l, now) && BanInv(c, o, l, now) && BansGrow(c, l) && now <= call.now
    ensures BanInv(c, EntryAfter(c, o, call, ip), LogAfter(c, l, o, call, ip), call.now)
    ensures BansGrow(c, LogAfter(c, l, o, call, ip))
  {
    SweepKeepsCount(c, o, l, now, call.now);
    SweepKeepsBans(c, o, l, now, call.now);
    if call.ip == ip && call.op == Fail {
      FailKeepsBans(c, Swept(c, o, call.now), l, call.now);
      FailKeepsGrowth(c, Swept(c, o, call.now), l, call.now);
    }
  }

  lemma {:induction false} BansHold(c: Config, run: Run, ip: IpAddr)
    requires Timely(run)
    ensures BanInv(c, Entry(c, run, ip), History(c, run, ip), Clock(run))
    ensures BansGrow(c, History(c, run, ip))
  {
    if run.Then? {
      BansHold(c, run.prev, ip);
      CountHolds(c, run.prev, ip);
      CallKeepsBans(c, Entry(c, run.prev, ip), History(c, run.prev, ip), Clock(run.prev), run.call, ip);
    }
  }

  /** An address is blocked exactly while some ban it was ever given is running; later
      failures and sweeps neither shorten nor lengthen a ban. */
  lemma BlockedExactly(c: Config, run: Run, ip: IpAddr, now: nat)
    requires Timely(run) && Clock(run) <= now
    ensures Answer(c, run, ip, now) <==> exists b :: b in History(c, run, ip).bans && Covers(b, now)
  {
    BansHold(c, run, ip);
    CountHolds(c, run, ip);
    var o, l := Entry(c, run, ip), History(c, run, ip);
    SweepKeepsBans(c, o, l, Clock(run), now);
    if Answer(c, run, ip, now) {
      var b := l.bans[|l.bans| - 1];
      assert b in l.bans && Covers(b, now);
    }
  }

  lemma LengthAtOne(c: Config)
    ensures BanLength(c, 1) == Min(2 * c.banBase, c.banMax)
  {
    assert Pow2(1) == 2 * Pow2(0);
  }

  lemma LengthDoubles(c: Config, level: nat)
    requires level < 10
    ensures BanLength(c, level + 1) == Min(2 * BanLength(c, level), c.banMax)
  {
    var a := c.banBase * Pow2(level);
    assert c.banBase * Pow2(level + 1) == 2 * a;
  }

  lemma LengthTops(c: Config, level: nat)
    requires level >= 10
    ensures BanLength(c, level) == Min(1024 * c.banBase, c.banMax)
  {
    assert Pow2(2) == 4 && Pow2(4) == 16 && Pow2(6) == 64 && Pow2(8) == 256 && Pow2(10) == 1024;
  }

  /** The length a ban has by its level, and by the ban one level below. */
  predicate Lasts(c: Config, b: Ban) {
    && b.level > 0
    && (b.level == 1 ==> b.length == Min(2 * c.banBase, c.banMax))
    && (b.level >= 10 ==> b.length == Min(1024 * c.banBase, c.banMax))
  }

  predicate Doubles(c: Config, b: Ban, b': Ban) {
    b'.level == b.level + 1 <= 10 ==> b'.length == Min(2 * b.length, c.banMax)
  }

  lemma {:induction false} LevelsArePositive(c: Config, l: Log, i: nat)
    requires BansGrow(c, l) && i < |l.bans|
    ensures l.bans[i].level > 0
  {
    if i > 0 {
      LevelsArePositive(c, l, i - 1);
      assert Follows(c, l, l.bans[i - 1], l.bans[i]);
    }
  }

  /** The first ban lasts twice the base, each further one twice the one before, up to the
      tenth, and none longer than the maximum. Levels start over exactly when the address was
      forgotten before it failed again. */
  lemma BanLengths(c: Config, run: Run, ip: IpAddr)
    requires Timely(run)
    ensures var l := History(c, run, ip);
            && BansGrow(c, l)
            && (forall i :: 0 <= i < |l.bans| ==> Lasts(c, l.bans[i]))
            && (forall i :: 0 < i < |l.bans| ==> Doubles(c, l.bans[i - 1], l.bans[i]))
  {
    BansHold(c, run, ip);
    var l := History(c, run, ip);
    assert forall i :: 0 <= i < |l.bans| ==> l.bans[i].length == BanLength(c, l.bans[i].level);
    hide BanLength, History, BanInv, BansGrow;
    forall i | 0 <= i < |l.bans|
      ensures Lasts(c, l.bans[i])
    {
      LevelsArePositive(c, l, i);
      LengthAtOne(c);
      if l.bans[i].level >= 10 {
        LengthTops(c, l.bans[i].level);
      }
    }
    forall i | 0 < i < |l.bans|
      ensures Doubles(c, l.bans[i - 1], l.bans[i])
    {
      if l.bans[i - 1].level < 10 {
        LengthDoubles(c, l.bans[i - 1].level);
      }
    }
  }
}
