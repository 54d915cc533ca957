/** The per-account failure throttle in front of the password check. */
module Throttle {
  import opened Common
  import opened Text
  import opened Intervals

  datatype Config = Config(maxFailures: nat, window: int, lockout: int, maxTracked: nat)

  datatype Penalty = Penalty(windowStart: int, failures: nat, lockedUntil: int)

  type Table = map<string, Penalty>

  datatype Outcome = Success(user: string) | InvalidCredentials | TemporaryFailure

  /** The account key of a user name. */
  function AccountKey(user: string): string {
    Lower(Trim(user))
  }

  function Lower(s: string): string {
    seq(|s|, i requires 0 <= i < |s| => AsciiLower(s[i]))
  }

  // ---------------------------------------------------------------- the table

  predicate Denied(t: Table, key: string, now: int) {
    key in t && t[key].lockedUntil > now
  }

  predicate StillMatters(c: Config, p: Penalty, now: int) {
    p.lockedUntil > now || SatSub(now, p.windowStart) < c.window
  }

  function Pruned(c: Config, t: Table, now: int): Table {
    map k | k in t && StillMatters(c, t[k], now) :: t[k]
  }

  function Ready(c: Config, t: Table, now: int): Table {
    if |t| >= c.maxTracked then Pruned(c, t, now) else t
  }

  /** No room to record a failure of this account. */
  predicate NoRoom(c: Config, t: Table, key: string, now: int) {
    |t| >= c.maxTracked && |Pruned(c, t, now)| >= c.maxTracked && key !in Pruned(c, t, now)
  }

  /** One failure against an account's penalty state, if it has one. */
  function Fail(c: Config, p: Option<Penalty>, now: int): Penalty {
    var a := if p.None? then Penalty(now, 0, 0) else p.value;
    var b := if a.lockedUntil != 0 && a.lockedUntil <= now then Penalty(now, 0, 0) else a;
    var d := if SatSub(now, b.windowStart) >= c.window || now < b.windowStart
             then Penalty(now, 0, b.lockedUntil) else b;
    if d.failures + 1 >= c.maxFailures then Penalty(d.windowStart, 0, SatAdd(now, c.lockout))
    else d.(failures := d.failures + 1)
  }

  function Entry(t: Table, key: string): Option<Penalty> {
    if key in t then Some(t[key]) else None
  }

  function RecordFailure(c: Config, t: Table, key: string, now: int): Table {
    if c.maxFailures == 0 then t
    else if NoRoom(c, t, key, now) then Pruned(c, t, now)
    else Ready(c, t, now)[key := Fail(c, Entry(Ready(c, t, now), key), now)]
  }

  /** One request: when it is checked, what the inner check would answer and when it would. */
  datatype Attempt = Attempt(user: string, checkedAt: int, outcome: Outcome, answeredAt: int)

  predicate ReachesInner(t: Table, a: Attempt) {
    AccountKey(a.user) == [] || !Denied(t, AccountKey(a.user), a.checkedAt)
  }

  /** The table after one request, handled alone. */
  function Authenticate(c: Config, t: Table, a: Attempt): Table {
    var key := AccountKey(a.user);
    if !ReachesInner(t, a) || key == [] then t
    else
      match a.outcome
      case Success(user) => t - {user}
      case InvalidCredentials => RecordFailure(c, t, key, a.answeredAt)
      case TemporaryFailure => t
  }

  class AuthThrottle {
    const config: Config
    var states: Table

    constructor (config: Config)
      ensures this.config == config && states == map[]
    {
      this.config := config;
      states := map[];
    }

    /** Whether the account is locked, and for how long. */
    method Check(key: string, now: int) returns (retryAfter: Option<int>)
      ensures retryAfter.Some? <==> Denied(states, key, now)
      ensures retryAfter.Some? ==> retryAfter.value == SatSub(states[key].lockedUntil, now)
    {
      if key in states && states[key].lockedUntil > now {
        return Some(SatSub(states[key].lockedUntil, now));
      }
      retryAfter := None;
    }

    method Failure(key: string, now: int)
      modifies this
      ensures states == RecordFailure(config, old(states), key, now)
    {
      if config.maxFailures == 0 {
        return;
      }
      if |states| >= config.maxTracked {
        states := map k | k in states && StillMatters(config, states[k], now) :: states[k];
        if |states| >= config.maxTracked && key !in states {
          return;
        }
      }
      var state := if key in states then states[key] else Penalty(now, 0, 0);
      if state.lockedUntil != 0 && state.lockedUntil <= now {
        state := Penalty(now, 0, 0);
      }
      if SatSub(now, state.windowStart) >= config.window || now < state.windowStart {
        state := state.(windowStart := now, failures := 0);
      }
      state := state.(failures := state.failures + 1);
      if state.failures >= config.maxFailures {
        state := state.(lockedUntil := SatAdd(now, config.lockout), failures := 0);
      }
      assert state == Fail(config, Entry(states, key), now);
      hide Fail;
      states := states[key := state];
    }

    method Succeed(user: string)
      modifies this
      ensures states == old(states) - {user}
    {
      states := states - {user};
    }

    /** One throttled request; the inner check's answer is a parameter. */
    method AuthenticateRequest(a: Attempt) returns (outcome: Outcome)
      modifies this
      ensures states == Authenticate(config, old(states), a)
      ensures outcome == if ReachesInner(old(states), a) then a.outcome else InvalidCredentials
    {
      var key := AccountKey(a.user);
      if key != [] {
        var retry := Check(key, a.checkedAt);
        if retry.Some? {
          return InvalidCredentials;
        }
      }
      if key != [] {
        match a.outcome
        case Success(user) => Succeed(user);
        case InvalidCredentials => Failure(key, a.answeredAt);
        case TemporaryFailure =>
      }
      outcome := a.outcome;
    }
  }

  // ---------------------------------------------------------------- runs

  function TableAfter(c: Config, run: seq<Attempt>): Table {
    if run == [] then map[] else Authenticate(c, TableAfter(c, run[..|run| - 1]), run[|run| - 1])
  }

  /** The `i`-th request is a failed password check of the account. */
  predicate IsFailure(c: Config, run: seq<Attempt>, key: string, i: nat)
    requires i < |run|
  {
    && AccountKey(run[i].user) == key && run[i].outcome.InvalidCredentials?
    && ReachesInner(TableAfter(c, run[..i]), run[i])
  }

  /** When failed checks of the account were answered, in order. */
  function FailureTimes(c: Config, run: seq<Attempt>, key: string): seq<int> {
    if run == [] then []
    else
      var n := |run| - 1;
      FailureTimes(c, run[..n], key) + if IsFailure(c, run, key, n) then [run[n].answeredAt] else []
  }

  /** Requests follow one another on a clock that never goes back, within its range. */
  predicate Sequential(c: Config, run: seq<Attempt>) {
    && (forall i :: 0 <= i < |run| ==> run[i].checkedAt <= run[i].answeredAt <= I64_MAX - c.lockout)
    && (forall i :: 0 <= i < |run| ==> I64_MIN <= run[i].checkedAt)
    && (forall i, j :: 0 <= i < j < |run| ==> run[i].answeredAt <= run[j].checkedAt)
  }

  /** The inner check never accepts the account, and its failures always find room. */
  predicate NoSuccessAndRoom(c: Config, run: seq<Attempt>, key: string) {
    && (forall i :: 0 <= i < |run| ==> run[i].outcome != Success(key))
    && (forall i :: 0 <= i < |run| && IsFailure(c, run, key, i) ==>
          !NoRoom(c, TableAfter(c, run[..i]), key, run[i].answeredAt))
  }

  predicate Usable(c: Config) {
    0 < c.maxFailures && 0 < c.window <= c.lockout <= I64_MAX
  }

  // -- what the account's own failures would leave in a table that never prunes

  function Tracked(c: Config, run: seq<Attempt>, key: string): Option<Penalty> {
    if run == [] then None
    else
      var n := |run| - 1;
      var before := Tracked(c, run[..n], key);
      if IsFailure(c, run, key, n) then Some(Fail(c, before, run[n].answeredAt)) else before
  }

  predicate Over(c: Config, p: Penalty, now: int) {
    p.lockedUntil <= now && now - p.windowStart >= c.window
  }

  /** The table holds the tracked penalty, or dropped it when it was over. */
  predicate Mirrors(c: Config, t: Table, key: string, tracked: Option<Penalty>, now: int) {
    if key in t then tracked == Some(t[key]) else tracked.None? || Over(c, tracked.value, now)
  }

  /** A penalty that is over counts like none. */
  lemma FailForgets(c: Config, p: Penalty, now: int)
    requires Usable(c) && Over(c, p, now) && p.lockedUntil == 0
    ensures Fail(c, Some(p), now) == Fail(c, None, now)
  {}

  lemma FailForgetsLock(c: Config, p: Penalty, now: int)
    requires Usable(c) && Over(c, p, now) && p.lockedUntil != 0
    ensures Fail(c, Some(p), now) == Fail(c, None, now)
  {}

  lemma MirrorsLater(c: Config, t: Table, key: string, tracked: Option<Penalty>, now: int, later: int)
    requires Mirrors(c, t, key, tracked, now) && now <= later
    ensures Mirrors(c, t, key, tracked, later)
  {}

  lemma MirrorsPruned(c: Config, t: Table, key: string, tracked: Option<Penalty>, now: int)
    requires Usable(c) && Mirrors(c, t, key, tracked, now)
    ensures Mirrors(c, Pruned(c, t, now), key, tracked, now)
    ensures Mirrors(c, Ready(c, t, now), key, tracked, now)
  {}

  lemma FailMirrors(c: Config, t: Table, key: string, tracked: Option<Penalty>, now: int)
    requires Usable(c) && Mirrors(c, t, key, tracked, now) && !NoRoom(c, t, key, now)
    ensures RecordFailure(c, t, key, now)[key] == Fail(c, tracked, now)
  {
    MirrorsPruned(c, t, key, tracked, now);
    if tracked.Some? && Over(c, tracked.value, now) {
      if tracked.value.lockedUntil == 0 { FailForgets(c, tracked.value, now); }
      else { FailForgetsLock(c, tracked.value, now); }
    }
  }

  /** Another account's request leaves the mirror in place. */
  lemma OthersMirror(c: Config, t: Table, key: string, tracked: Option<Penalty>, a: Attempt)
    requires Usable(c) && Mirrors(c, t, key, tracked, a.answeredAt)
    requires AccountKey(a.user) != key || !a.outcome.InvalidCredentials? || !ReachesInner(t, a)
    requires a.outcome != Success(key)
    ensures Mirrors(c, Authenticate(c, t, a), key, tracked, a.answeredAt)
  {
    hide AccountKey, Fail;
    MirrorsPruned(c, t, key, tracked, a.answeredAt);
  }

  lemma Prefix(c: Config, run: seq<Attempt>, key: string, n: nat)
    requires n <= |run| && Sequential(c, run) && NoSuccessAndRoom(c, run, key)
    ensures Sequential(c, run[..n]) && NoSuccessAndRoom(c, run[..n], key)
  {
    hide ReachesInner, NoRoom, AccountKey;
    forall i | 0 <= i < n ensures run[..n][..i] == run[..i] {}
  }

  lemma {:induction false} TableMirrors(c: Config, run: seq<Attempt>, key: string)
    requires Usable(c) && Sequential(c, run) && NoSuccessAndRoom(c, run, key) && run != [] && key != []
    ensures Mirrors(c, TableAfter(c, run), key, Tracked(c, run, key), run[|run| - 1].answeredAt)
  {
    var n := |run| - 1;
    var t, tracked, a := TableAfter(c, run[..n]), Tracked(c, run[..n], key), run[n];
    if n > 0 {
      Prefix(c, run, key, n);
      TableMirrors(c, run[..n], key);
      MirrorsLater(c, t, key, tracked, run[n - 1].answeredAt, a.answeredAt);
    }
    if IsFailure(c, run, key, n) {
      FailMirrors(c, t, key, tracked, a.answeredAt);
    } else {
      OthersMirror(c, t, key, tracked, a);
    }
    hide AccountKey, Fail, RecordFailure, NoRoom;
  }

  // -- the failures seen from the tracked penalty

  /** While locked: every failure so far is at least a lockout before the lock ends, and the
      limit's worth of them lies in one window. */
  predicate LockedView(c: Config, times: seq<int>, p: Penalty) {
    && p.failures == 0 && times != [] && p.lockedUntil == times[|times| - 1] + c.lockout
    && p.windowStart <= times[|times| - 1] && |times| >= c.maxFailures
    && (forall i :: |times| - c.maxFailures <= i < |times| ==> p.windowStart <= times[i] < p.windowStart + c.window)
  }

  /** How many failures before the current window may be within reach of it: all but the first
      of the window before, which is more than a window back, and none when that
      window was a single second. */
  function Slack(c: Config): nat {
    if c.maxFailures <= 2 || c.window == 1 then 0 else c.maxFailures - 2
  }

  /** The most failures an interval of the window's length can hold. */
  function FailureLimit(c: Config): nat {
    c.maxFailures + Slack(c)
  }

  /** While open: the current window's failures from its start on, at most the slack before
      them within reach, and the rest a window or more before the current one. */
  predicate OpenView(c: Config, times: seq<int>, p: Penalty, k: nat) {
    && p.lockedUntil == 0 && k + p.failures <= |times| <= k + p.failures + Slack(c)
    && (forall i :: |times| - p.failures <= i < |times| ==> p.windowStart <= times[i] < p.windowStart + c.window)
    && (forall i :: 0 <= i < |times| - p.failures ==> times[i] <= p.windowStart)
    && (forall i :: 0 <= i < k ==> times[i] + c.window <= p.windowStart)
    && (p.failures > 0 ==> times[|times| - p.failures] == p.windowStart)
  }

  ghost predicate Accounted(c: Config, times: seq<int>, p: Option<Penalty>)
    requires c.maxFailures > 0
  {
    && Sorted(times) && Spread(times, FailureLimit(c), c.window)
    && (p.None? ==> times == [])
    && (p.Some? ==>
          && p.value.failures < c.maxFailures
          && (LockedView(c, times, p.value)
              || (p.value.failures > 0 && exists k: nat :: OpenView(c, times, p.value, k))))
  }

  /** A failure that opens a new window. */
  lemma NewWindow(c: Config, times: seq<int>, p: Option<Penalty>, now: int)
    requires Usable(c) && Accounted(c, times, p) && (times != [] ==> times[|times| - 1] <= now)
    requires p.Some? ==> p.value.lockedUntil <= now
    requires p.Some? && !LockedView(c, times, p.value) ==> now - p.value.windowStart >= c.window
    ensures exists k: nat :: OpenView(c, times, Penalty(now, 0, 0), k)
  {
    var fresh_ := Penalty(now, 0, 0);
    if p.None? {
      assert OpenView(c, times, fresh_, 0);
    } else if LockedView(c, times, p.value) {
      forall i | 0 <= i < |times| ensures times[i] + c.window <= now {
        assert times[i] <= times[|times| - 1];
      }
      assert OpenView(c, times, fresh_, |times|);
    } else {
      var k: nat :| OpenView(c, times, p.value, k);
      if c.window == 1 {
        assert OpenView(c, times, fresh_, |times|);
      } else {
        assert OpenView(c, times, fresh_, |times| - p.value.failures + 1);
      }
    }
  }

  /** One more failure in the current window, which may lock the account. */
  lemma OneMore(c: Config, times: seq<int>, p: Penalty, k: nat, now: int)
    requires Usable(c) && I64_MIN <= now <= I64_MAX - c.lockout
    requires Sorted(times) && Spread(times, FailureLimit(c), c.window) && OpenView(c, times, p, k)
    requires p.failures < c.maxFailures && p.windowStart <= now < p.windowStart + c.window
    requires (p.failures == 0 ==> p.windowStart == now) && (times != [] ==> times[|times| - 1] <= now)
    ensures var q := if p.failures + 1 >= c.maxFailures then Penalty(p.windowStart, 0, SatAdd(now, c.lockout))
                     else p.(failures := p.failures + 1);
            Accounted(c, times + [now], Some(q))
  {
    SortedSnoc(times, now);
    OneMoreSpreads(c, times, p, k, now);
    if p.failures + 1 >= c.maxFailures {
      OneMoreLocks(c, times, p, k, now);
    } else {
      OneMoreOpens(c, times, p, k, now);
    }
    hide OpenView, LockedView, Sorted, Spread;
  }

  lemma OneMoreSpreads(c: Config, times: seq<int>, p: Penalty, k: nat, now: int)
    requires Usable(c) && Spread(times, FailureLimit(c), c.window) && OpenView(c, times, p, k)
    requires p.failures < c.maxFailures && p.windowStart <= now
    ensures Spread(times + [now], FailureLimit(c), c.window)
  {
    var m := FailureLimit(c);
    if |times| >= m {
      assert |times| - m < k;
    }
    SpreadSnoc(times, now, m, c.window);
  }

  lemma OneMoreLocks(c: Config, times: seq<int>, p: Penalty, k: nat, now: int)
    requires Usable(c) && I64_MIN <= now <= I64_MAX - c.lockout && OpenView(c, times, p, k)
    requires p.failures + 1 == c.maxFailures && p.windowStart <= now < p.windowStart + c.window
    ensures LockedView(c, times + [now], Penalty(p.windowStart, 0, SatAdd(now, c.lockout)))
  {}

  lemma OneMoreOpens(c: Config, times: seq<int>, p: Penalty, k: nat, now: int)
    requires Usable(c) && OpenView(c, times, p, k)
    requires p.failures + 1 < c.maxFailures && p.windowStart <= now < p.windowStart + c.window
    requires p.failures == 0 ==> p.windowStart == now
    ensures OpenView(c, times + [now], p.(failures := p.failures + 1), k)
  {}

  lemma FailAccounts(c: Config, times: seq<int>, p: Option<Penalty>, now: int)
    requires Usable(c) && Accounted(c, times, p) && I64_MIN <= now <= I64_MAX - c.lockout
    requires times != [] ==> times[|times| - 1] <= now
    requires p.Some? ==> p.value.windowStart <= now && p.value.lockedUntil <= now
    ensures var q := Fail(c, p, now); Accounted(c, times + [now], Some(q)) && q.windowStart <= now
  {
    var reset := p.None? || LockedView(c, times, p.value) || now - p.value.windowStart >= c.window;
    if reset {
      NewWindow(c, times, p, now);
      var k: nat :| OpenView(c, times, Penalty(now, 0, 0), k);
      OneMore(c, times, Penalty(now, 0, 0), k, now);
    } else {
      var k: nat :| OpenView(c, times, p.value, k);
      OneMore(c, times, p.value, k, now);
    }
    hide Accounted, LockedView, OpenView;
  }

  /** When a check was let through, the tracked penalty is not locked. */
  lemma LetThrough(c: Config, t: Table, key: string, tracked: Option<Penalty>, a: Attempt, now: int)
    requires Mirrors(c, t, key, tracked, now) && now <= a.checkedAt
    requires key != [] && AccountKey(a.user) == key && ReachesInner(t, a)
    ensures tracked.Some? ==> tracked.value.lockedUntil <= a.checkedAt
  {
    hide AccountKey;
  }

  lemma {:induction false} RunAccounts(c: Config, run: seq<Attempt>, key: string)
    requires Usable(c) && Sequential(c, run) && NoSuccessAndRoom(c, run, key) && key != []
    ensures var times, p := FailureTimes(c, run, key), Tracked(c, run, key);
            && Accounted(c, times, p)
            && (run != [] ==>
                  && (times != [] ==> times[|times| - 1] <= run[|run| - 1].answeredAt)
                  && (p.Some? ==> p.value.windowStart <= run[|run| - 1].answeredAt))
  {
    hide *;
    RunUnfolds(c, run, key);
    if run == [] {
      NothingAccounted(c);
    } else {
      var n := |run| - 1;
      var times, p, a := FailureTimes(c, run[..n], key), Tracked(c, run[..n], key), run[n];
      Prefix(c, run, key, n);
      RunAccounts(c, run[..n], key);
      RunUnfolds(c, run[..n], key);
      StepTimes(c, run);
      assert n > 0 ==> run[..n][n - 1] == run[n - 1];
      if IsFailure(c, run, key, n) {
        FailureReaches(c, run, key, n);
        if n > 0 {
          TableMirrors(c, run[..n], key);
          LetThrough(c, TableAfter(c, run[..n]), key, p, a, run[n - 1].answeredAt);
        }
        FailAccounts(c, times, p, a.answeredAt);
      }
    }
  }

  lemma RunUnfolds(c: Config, run: seq<Attempt>, key: string)
    ensures run == [] ==> FailureTimes(c, run, key) == [] && Tracked(c, run, key) == None && TableAfter(c, run) == map[]
    ensures run != [] ==>
              var n := |run| - 1;
              var times, p, t := FailureTimes(c, run[..n], key), Tracked(c, run[..n], key), TableAfter(c, run[..n]);
              && TableAfter(c, run) == Authenticate(c, t, run[n])
              && if IsFailure(c, run, key, n) then
                   && FailureTimes(c, run, key) == times + [run[n].answeredAt]
                   && Tracked(c, run, key) == Some(Fail(c, p, run[n].answeredAt))
                 else FailureTimes(c, run, key) == times && Tracked(c, run, key) == p
  {
    hide IsFailure, Fail, Authenticate;
    if run != [] {
      assert FailureTimes(c, run[..|run| - 1], key) + [] == FailureTimes(c, run[..|run| - 1], key);
    }
  }

  lemma NothingAccounted(c: Config)
    requires Usable(c)
    ensures Accounted(c, [], None)
  {}

  lemma StepTimes(c: Config, run: seq<Attempt>)
    requires Sequential(c, run) && run != [] && Usable(c)
    ensures var n := |run| - 1;
            && I64_MIN <= run[n].checkedAt <= run[n].answeredAt <= I64_MAX - c.lockout
            && (n > 0 ==> run[n - 1].answeredAt <= run[n].checkedAt)
    ensures c.maxFailures > 0
  {}

  lemma FailureReaches(c: Config, run: seq<Attempt>, key: string, n: nat)
    requires n < |run| && IsFailure(c, run, key, n)
    ensures AccountKey(run[n].user) == key && ReachesInner(TableAfter(c, run[..n]), run[n])
  {}

  /** In every sequential run without a success for the account and with room for its
      failures: at most `FailureLimit` failed checks reach the inner check in any half-open
      interval of the window's length, and its stored count stays below the limit. */
  lemma FailureBound(c: Config, run: seq<Attempt>, key: string, a: int)
    requires Usable(c) && Sequential(c, run) && NoSuccessAndRoom(c, run, key) && key != []
    ensures CountIn(FailureTimes(c, run, key), a, a + c.window) <= FailureLimit(c)
    ensures var t := TableAfter(c, run); key in t ==> t[key].failures < c.maxFailures
  {
    RunAccounts(c, run, key);
    SpreadBoundsCount(FailureTimes(c, run, key), FailureLimit(c), a, c.window);
    if run != [] { TableMirrors(c, run, key); }
    hide FailureTimes, Sequential, NoSuccessAndRoom, CountIn, OpenView, LockedView;
  }

  /** A lock is earned: in such a run the account is denied only within a lockout of its last
      failed check, and when the last `maxFailures` of them lie within one window's length. The
      clock must not show a time before 1970. */
  lemma LockIsEarned(c: Config, run: seq<Attempt>, key: string, now: int)
    requires Usable(c) && Sequential(c, run) && NoSuccessAndRoom(c, run, key) && key != []
    requires Denied(TableAfter(c, run), key, now) && now >= 0
    ensures var times := FailureTimes(c, run, key);
            && |times| >= c.maxFailures && now < times[|times| - 1] + c.lockout
            && times[|times| - 1] - times[|times| - c.maxFailures] < c.window
  {
    hide *;
    RunUnfolds(c, run, key);
    if run != [] {
      RunAccounts(c, run, key);
      TableMirrors(c, run, key);
    }
    LockedTimes(c, TableAfter(c, run), key, FailureTimes(c, run, key), Tracked(c, run, key),
                if run == [] then now else run[|run| - 1].answeredAt, now);
  }

  lemma LockedTimes(c: Config, t: Table, key: string, times: seq<int>, p: Option<Penalty>, last: int, now: int)
    requires Usable(c) && Denied(t, key, now) && now >= 0
    requires t == map[] || (Accounted(c, times, p) && Mirrors(c, t, key, p, last))
    requires p.Some? ==> Accounted(c, times, p)
    ensures |times| >= c.maxFailures && now < times[|times| - 1] + c.lockout
    ensures times[|times| - 1] - times[|times| - c.maxFailures] < c.window
  {}

  /** Before 1970 a first failure already denies its account. */
  lemma NegativeClockDenies(c: Config, key: string, now: int)
    requires Usable(c) && c.maxTracked > 0 && I64_MIN <= now < 0
    ensures Denied(RecordFailure(c, map[], key, now), key, now)
  {}

  /** The accounts that matter: locked, or with a running window. */
  function Mattering(c: Config, t: Table, now: int): set<string> {
    set k | k in t && (t[k].lockedUntil > now || now - t[k].windowStart < c.window)
  }

  /** A failure is recorded exactly when there is room: fewer accounts are held than may be, or
      fewer of them matter, or this one is among those. */
  lemma RecordedExactly(c: Config, t: Table, key: string, now: int)
    requires Usable(c)
    ensures key in RecordFailure(c, t, key, now) <==>
            |t| < c.maxTracked || |Mattering(c, t, now)| < c.maxTracked || key in Mattering(c, t, now)
  {
    var pruned := Pruned(c, t, now);
    assert pruned.Keys == Mattering(c, t, now);
    assert |pruned| == |pruned.Keys|;
    hide Fail;
  }

  /** What a recorded failure does: it is counted in a running window or starts a new one, and
      the account is locked from the last one allowed on, for as long as the lockout. */
  lemma LocksExactly(c: Config, t: Table, key: string, now: int, later: int)
    requires Usable(c) && |t| < c.maxTracked && I64_MIN <= now <= I64_MAX - c.lockout && !Denied(t, key, now)
    requires later >= 0
    ensures var running := key in t && t[key].lockedUntil == 0 && 0 <= now - t[key].windowStart < c.window;
            var count := (if running then t[key].failures else 0) + 1;
            var after := RecordFailure(c, t, key, now);
            && (Denied(after, key, later) <==> count >= c.maxFailures && later < now + c.lockout)
            && (count < c.maxFailures ==> key in after && after[key].failures == count)
  {}

  /** A success forgets the account it names and no other: it is not denied, and its next
      failure is its first. */
  lemma SuccessForgets(c: Config, t: Table, a: Attempt, now: int)
    requires Usable(c) && a.outcome.Success? && ReachesInner(t, a) && AccountKey(a.user) != []
    ensures var after, user := Authenticate(c, t, a), a.outcome.user;
            && user !in after && !Denied(after, user, now)
            && (forall k :: k != user ==> (k in after <==> k in t) && (k in t ==> after[k] == t[k]))
            && (|after| < c.maxTracked && c.maxFailures > 1 ==>
                  var next := RecordFailure(c, after, user, now); user in next && next[user].failures == 1)
  {
    hide AccountKey, StillMatters;
  }

  /** Two spellings of a name are one account exactly when they agree but for letter case and
      the blanks around them; a request then has the same effect under either. */
  lemma SpellingsShareAccount(c: Config, t: Table, a: Attempt, user: string)
    ensures AccountKey(a.user) == AccountKey(user) <==> EqIgnoreCase(Trim(a.user), Trim(user))
    ensures EqIgnoreCase(Trim(a.user), Trim(user)) ==>
              && Authenticate(c, t, a.(user := user)) == Authenticate(c, t, a)
              && (ReachesInner(t, a.(user := user)) <==> ReachesInner(t, a))
  {
    var x, y := Trim(a.user), Trim(user);
    if Lower(x) == Lower(y) {
      forall i | 0 <= i < |x| ensures AsciiLower(x[i]) == AsciiLower(y[i]) {
        assert Lower(x)[i] == Lower(y)[i];
      }
    }
    if EqIgnoreCase(x, y) { assert Lower(x) == Lower(y); }
    hide RecordFailure;
  }

  /** In every run at all, each stored failure count stays below the limit. */
  lemma {:induction false} StoredCountsBelowLimit(c: Config, run: seq<Attempt>)
    requires c.maxFailures > 0
    ensures forall k :: k in TableAfter(c, run) ==> TableAfter(c, run)[k].failures < c.maxFailures
  {
    if run != [] {
      StoredCountsBelowLimit(c, run[..|run| - 1]);
      hide AccountKey, NoRoom, StillMatters;
    }
  }

  // -- runs that reach the bound

  /** Failed requests for one account, each checked and answered at once. */
  function Failures(user: string, times: seq<int>): (run: seq<Attempt>)
    ensures |run| == |times|
  {
    seq(|times|, i requires 0 <= i < |times| => Attempt(user, times[i], InvalidCredentials, times[i]))
  }

  /** The penalty those failures leave when all of them are let through. */
  function PenaltyAfter(c: Config, times: seq<int>): Option<Penalty> {
    if times == [] then None
    else
      var n := |times| - 1;
      Some(Fail(c, PenaltyAfter(c, times[..n]), times[n]))
  }

  /** No failure comes while the ones before it have locked the account. */
  predicate NeverLocked(c: Config, times: seq<int>) {
    forall i :: 0 <= i < |times| && PenaltyAfter(c, times[..i]).Some? ==>
      PenaltyAfter(c, times[..i]).value.lockedUntil <= times[i]
  }

  predicate InRange(c: Config, times: seq<int>) {
    Sorted(times) && forall i :: 0 <= i < |times| ==> I64_MIN <= times[i] <= I64_MAX - c.lockout
  }

  /** Such failures all reach the inner check, as long as the table can hold one account. */
  lemma {:induction false} FailuresReachInner(c: Config, user: string, times: seq<int>)
    requires Usable(c) && c.maxTracked > 0 && AccountKey(user) != [] && InRange(c, times) && NeverLocked(c, times)
    ensures var run, key := Failures(user, times), AccountKey(user);
            && Sequential(c, run) && NoSuccessAndRoom(c, run, key) && TableAfter(c, run).Keys <= {key}
            && FailureTimes(c, run, key) == times && Tracked(c, run, key) == PenaltyAfter(c, times)
    decreases |times|
  {
    hide *;
    var run, key := Failures(user, times), AccountKey(user);
    RunUnfolds(c, run, key);
    FailuresSequential(c, user, times);
    if times == [] {
      NoFailures(c, key);
    } else {
      var n := |times| - 1;
      var front := times[..n];
      FrontOfFailures(c, user, times);
      PenaltyUnfolds(c, times);
      FrontAndLast(times);
      FailuresReachInner(c, user, front);
      RunUnfolds(c, run[..n], key);
      assert n > 0 ==> run[..n][n - 1] == run[n - 1];
      if n > 0 {
        TableMirrors(c, run[..n], key);
        MirrorsLater(c, TableAfter(c, run[..n]), key, PenaltyAfter(c, front), times[n - 1], times[n]);
      }
      LastReaches(c, TableAfter(c, run[..n]), PenaltyAfter(c, front), run[n]);
      IsThenFailure(c, run, key);
      RoomKept(c, run, key);
    }
  }

  lemma NoFailures(c: Config, key: string)
    ensures NoSuccessAndRoom(c, [], key) && PenaltyAfter(c, []) == None
  {}

  lemma FailuresSequential(c: Config, user: string, times: seq<int>)
    requires InRange(c, times)
    ensures Sequential(c, Failures(user, times)) && (times == [] ==> Failures(user, times) == [])
  {}

  lemma IsThenFailure(c: Config, run: seq<Attempt>, key: string)
    requires run != []
    requires var n := |run| - 1;
             AccountKey(run[n].user) == key && run[n].outcome == InvalidCredentials
             && ReachesInner(TableAfter(c, run[..n]), run[n])
    ensures IsFailure(c, run, key, |run| - 1)
  {}

  lemma FrontOfFailures(c: Config, user: string, times: seq<int>)
    requires times != [] && InRange(c, times) && NeverLocked(c, times)
    ensures var n := |times| - 1;
            var front, run := times[..n], Failures(user, times);
            && InRange(c, front) && NeverLocked(c, front) && run[..n] == Failures(user, front)
            && run[n] == Attempt(user, times[n], InvalidCredentials, times[n])
            && (n > 0 ==> run[n - 1].answeredAt == times[n - 1] <= times[n])
            && (PenaltyAfter(c, front).Some? ==> PenaltyAfter(c, front).value.lockedUntil <= times[n])
  {
    NeverLockedFront(c, times);
    hide PenaltyAfter, NeverLocked, Fail;
    var n := |times| - 1;
    assert Failures(user, times)[..n] == Failures(user, times[..n]);
  }

  lemma PenaltyUnfolds(c: Config, times: seq<int>)
    requires times != []
    ensures var n := |times| - 1;
            PenaltyAfter(c, times) == Some(Fail(c, PenaltyAfter(c, times[..n]), times[n]))
  {
    hide Fail, Slack;
  }

  lemma FrontAndLast(times: seq<int>)
    requires times != []
    ensures times[..|times| - 1] + [times[|times| - 1]] == times
  {}

  lemma NeverLockedFront(c: Config, times: seq<int>)
    requires times != [] && NeverLocked(c, times)
    ensures var n := |times| - 1;
            && NeverLocked(c, times[..n])
            && (PenaltyAfter(c, times[..n]).Some? ==> PenaltyAfter(c, times[..n]).value.lockedUntil <= times[n])
  {
    var n := |times| - 1;
    hide PenaltyAfter, Fail;
    forall i | 0 <= i < n ensures times[..n][..i] == times[..i] && times[..n][i] == times[i] {}
  }

  lemma LastReaches(c: Config, t: Table, tracked: Option<Penalty>, a: Attempt)
    requires Usable(c) && c.maxTracked > 0 && a.outcome == InvalidCredentials && a.checkedAt == a.answeredAt
    requires var key := AccountKey(a.user);
             key != [] && t.Keys <= {key} && (t == map[] || Mirrors(c, t, key, tracked, a.answeredAt))
    requires tracked.Some? ==> tracked.value.lockedUntil <= a.checkedAt
    ensures ReachesInner(t, a) && !NoRoom(c, t, AccountKey(a.user), a.answeredAt)
    ensures Authenticate(c, t, a).Keys <= {AccountKey(a.user)}
  {
    var key := AccountKey(a.user);
    hide AccountKey, Fail;
    var pruned := Pruned(c, t, a.answeredAt);
    if key !in pruned { assert pruned.Keys == {}; assert |pruned| == |pruned.Keys|; }
  }

  lemma RoomKept(c: Config, run: seq<Attempt>, key: string)
    requires run != [] && NoSuccessAndRoom(c, run[..|run| - 1], key)
    requires run[|run| - 1].outcome == InvalidCredentials
    requires !NoRoom(c, TableAfter(c, run[..|run| - 1]), key, run[|run| - 1].answeredAt)
    ensures NoSuccessAndRoom(c, run, key)
  {
    hide NoRoom, AccountKey, ReachesInner;
    var n := |run| - 1;
    forall i | 0 <= i < n ensures run[..n][..i] == run[..i] && run[..n][i] == run[i] {}
    forall i | 0 <= i < |run| && IsFailure(c, run, key, i)
      ensures !NoRoom(c, TableAfter(c, run[..i]), key, run[i].answeredAt)
    {
      if i < n { assert IsFailure(c, run[..n], key, i); }
    }
  }

  /** The first `n` failures of a run that reaches the bound. When failures of the window
      before can be within reach: one at time 0, all but one of the others the window takes
      in its last second, and a full window's worth in the next second. */
  function BurstTimes(c: Config, n: nat): (times: seq<int>)
    ensures |times| == n
  {
    seq(n, i => if Slack(c) == 0 || i == 0 then 0 else if i < c.maxFailures - 1 then c.window - 1 else c.window)
  }

  function BurstSize(c: Config): nat {
    if Slack(c) == 0 then c.maxFailures else 2 * c.maxFailures - 1
  }

  /** Where the fullest interval starts. */
  function BurstFrom(c: Config): int {
    if Slack(c) == 0 then 0 else c.window - 1
  }

  /** The penalty after some of them, before the last one locks the account. */
  function BurstPenalty(c: Config, n: nat): Option<Penalty> {
    if n == 0 then None
    else if Slack(c) == 0 || n < c.maxFailures then Some(Penalty(0, n, 0))
    else Some(Penalty(c.window, n - c.maxFailures + 1, 0))
  }

  lemma {:induction false} BurstPenalties(c: Config, n: nat)
    requires Usable(c) && n < BurstSize(c)
    ensures PenaltyAfter(c, BurstTimes(c, n)) == BurstPenalty(c, n)
  {
    if n > 0 {
      var times := BurstTimes(c, n);
      assert times[..n - 1] == BurstTimes(c, n - 1);
      BurstPenalties(c, n - 1);
      PenaltyUnfolds(c, times);
      hide PenaltyAfter;
      BurstStep(c, n - 1);
    }
  }

  lemma BurstStep(c: Config, n: nat)
    requires Usable(c) && n + 1 < BurstSize(c)
    ensures Some(Fail(c, BurstPenalty(c, n), BurstTimes(c, n + 1)[n])) == BurstPenalty(c, n + 1)
  {}

  /** The bound is reached, whenever the clock can run that long and the table hold an account. */
  lemma FailureBoundIsReached(c: Config, user: string)
    requires Usable(c) && c.maxTracked > 0 && AccountKey(user) != [] && c.window <= I64_MAX - c.lockout
    ensures var run, key := Failures(user, BurstTimes(c, BurstSize(c))), AccountKey(user);
            && Sequential(c, run) && NoSuccessAndRoom(c, run, key)
            && CountIn(FailureTimes(c, run, key), BurstFrom(c), BurstFrom(c) + c.window) == FailureLimit(c)
  {
    var times := BurstTimes(c, BurstSize(c));
    forall i | 0 <= i < |times| ensures PenaltyAfter(c, times[..i]) == BurstPenalty(c, i) {
      assert times[..i] == BurstTimes(c, i);
      BurstPenalties(c, i);
    }
    assert NeverLocked(c, times);
    BurstCounted(c);
    hide *;
    FailuresReachInner(c, user, times);
  }

  /** All of them lie in one interval, or all but the first in another. */
  lemma BurstCounted(c: Config)
    requires Usable(c) && c.window <= I64_MAX - c.lockout
    ensures var times := BurstTimes(c, BurstSize(c));
            && InRange(c, times)
            && CountIn(times, BurstFrom(c), BurstFrom(c) + c.window) == FailureLimit(c)
  {
    var times := BurstTimes(c, BurstSize(c));
    if Slack(c) == 0 {
      AllCounted(times, 0, c.window);
    } else {
      FirstMissed(times, c.window - 1, c.window - 1 + c.window);
    }
  }

  lemma {:induction false} FirstMissed(times: seq<int>, a: int, b: int)
    requires times != [] && times[0] < a && forall i :: 1 <= i < |times| ==> a <= times[i] < b
    ensures CountIn(times, a, b) == |times| - 1
  {
    if |times| > 1 {
      FirstMissed(times[..|times| - 1], a, b);
    } else {
      assert CountIn(times[..0], a, b) == 0;
    }
  }

  /** A limit's worth at time 0, and as many when the lock ends. */
  function PairTimes(c: Config, n: nat): (times: seq<int>)
    ensures |times| == n
  {
    seq(n, i => if i < c.maxFailures then 0 else c.lockout)
  }

  function PairPenalty(c: Config, n: nat): Option<Penalty> {
    if n == 0 then None
    else if n < c.maxFailures then Some(Penalty(0, n, 0))
    else if n == c.maxFailures then Some(Penalty(0, 0, c.lockout))
    else Some(Penalty(c.lockout, n - c.maxFailures, 0))
  }

  lemma {:induction false} PairPenalties(c: Config, n: nat)
    requires Usable(c) && n < 2 * c.maxFailures
    ensures PenaltyAfter(c, PairTimes(c, n)) == PairPenalty(c, n)
  {
    if n > 0 {
      var times := PairTimes(c, n);
      assert times[..n - 1] == PairTimes(c, n - 1);
      PairPenalties(c, n - 1);
      PenaltyUnfolds(c, times);
      hide PenaltyAfter;
      PairStep(c, n - 1);
    }
  }

  lemma PairStep(c: Config, n: nat)
    requires Usable(c) && n + 1 < 2 * c.maxFailures
    ensures Some(Fail(c, PairPenalty(c, n), PairTimes(c, n + 1)[n])) == PairPenalty(c, n + 1)
  {}

  /** With a lockout no longer than the window, an interval that includes its end holds
      twice the limit. */
  lemma ClosedIntervalHoldsMore(c: Config, user: string)
    requires Usable(c) && c.maxTracked > 0 && AccountKey(user) != [] && c.window == c.lockout <= I64_MAX - c.lockout
    ensures var run, key := Failures(user, PairTimes(c, 2 * c.maxFailures)), AccountKey(user);
            && Sequential(c, run) && NoSuccessAndRoom(c, run, key)
            && CountIn(FailureTimes(c, run, key), 0, c.window + 1) == 2 * c.maxFailures
  {
    var times := PairTimes(c, 2 * c.maxFailures);
    forall i | 0 <= i < |times| ensures PenaltyAfter(c, times[..i]) == PairPenalty(c, i) {
      assert times[..i] == PairTimes(c, i);
      PairPenalties(c, i);
    }
    assert NeverLocked(c, times);
    AllCounted(times, 0, c.window + 1);
    assert InRange(c, times);
    hide *;
    FailuresReachInner(c, user, times);
  }
}
