/** The per-address fixed-window rate limiter and its bounded table. */
module Limiter {
  import opened Common
  import opened Text
  import opened Intervals

  const MAX_TRACKED_IPS: nat := 65536

  type Ip = nat

  datatype Config = Config(max: nat, window: int)
  datatype Window = Window(start: int, count: nat)
  datatype Call = Call(ip: Ip, now: int)

  type Table = map<Ip, Window>

  /** Dropping the windows that are over. */
  function Pruned(c: Config, w: Table, now: int): Table {
    map ip | ip in w && SatSub(now, w[ip].start) < c.window :: w[ip]
  }

  /** The table a call works on. */
  function Ready(c: Config, w: Table, now: int): Table {
    if |w| >= MAX_TRACKED_IPS then Pruned(c, w, now) else w
  }

  /** The table is full of live windows and the address is not among them. */
  predicate TableFull(c: Config, w: Table, call: Call) {
    |w| >= MAX_TRACKED_IPS && |Pruned(c, w, call.now)| >= MAX_TRACKED_IPS && call.ip !in Pruned(c, w, call.now)
  }

  /** One request against an address's window, if it has one. */
  function Bump(c: Config, w: Option<Window>, now: int): (Window, bool) {
    var v := if w.None? then Window(now, 0) else w.value;
    var u := if SatSub(now, v.start) >= c.window || now < v.start then Window(now, 0) else v;
    if u.count >= c.max then (u, false) else (Window(u.start, u.count + 1), true)
  }

  function Entry(w: Table, ip: Ip): Option<Window> {
    if ip in w then Some(w[ip]) else None
  }

  /** The table after one call, and its answer. */
  function Allow(c: Config, w: Table, call: Call): (Table, bool) {
    if c.max == 0 then (w, false)
    else if TableFull(c, w, call) then (Pruned(c, w, call.now), false)
    else
      var ready := Ready(c, w, call.now);
      var (window, ok) := Bump(c, Entry(ready, call.ip), call.now);
      (ready[call.ip := window], ok)
  }

  class RateLimiter {
    const config: Config
    var windows: Table

    constructor (config: Config)
      ensures this.config == config && windows == map[]
    {
      this.config := config;
      windows := map[];
    }

    method AllowRequest(ip: Ip, now: int) returns (ok: bool)
      modifies this
      ensures (windows, ok) == Allow(config, old(windows), Call(ip, now))
    {
      if config.max == 0 {
        return false;
      }
      if |windows| >= MAX_TRACKED_IPS {
        windows := map i | i in windows && SatSub(now, windows[i].start) < config.window :: windows[i];
        if |windows| >= MAX_TRACKED_IPS && ip !in windows {
          return false;
        }
      }
      ghost var ready := windows;
      var window := if ip in windows then windows[ip] else Window(now, 0);
      if SatSub(now, window.start) >= config.window || now < window.start {
        window := Window(now, 0);
      }
      if window.count >= config.max {
        windows := windows[ip := window];
        return false;
      }
      windows := windows[ip := Window(window.start, window.count + 1)];
      ok := true;
    }
  }

  // ---------------------------------------------------------------- runs

  function TableAfter(c: Config, calls: seq<Call>): Table {
    if calls == [] then map[] else Allow(c, TableAfter(c, calls[..|calls| - 1]), calls[|calls| - 1]).0
  }

  /** The answer to the `i`-th call. */
  predicate Answer(c: Config, calls: seq<Call>, i: nat)
    requires i < |calls|
  {
    Allow(c, TableAfter(c, calls[..i]), calls[i]).1
  }

  /** When the address was allowed, in order. */
  function AllowedTimes(c: Config, calls: seq<Call>, ip: Ip): seq<int> {
    if calls == [] then []
    else
      var n := |calls| - 1;
      AllowedTimes(c, calls[..n], ip) + if calls[n].ip == ip && Answer(c, calls, n) then [calls[n].now] else []
  }

  /** The clock never goes back. */
  predicate Steady(calls: seq<Call>) {
    forall i, j :: 0 <= i <= j < |calls| ==> calls[i].now <= calls[j].now
  }

  predicate Usable(c: Config) {
    0 < c.window <= I64_MAX
  }

  predicate Expired(c: Config, w: Window, now: int) {
    now - w.start >= c.window
  }

  /** The table never holds more than its bound. */
  lemma {:induction false} TableBounded(c: Config, calls: seq<Call>)
    ensures |TableAfter(c, calls)| <= MAX_TRACKED_IPS
  {
    if calls != [] {
      var n := |calls| - 1;
      TableBounded(c, calls[..n]);
      AllowBounded(c, TableAfter(c, calls[..n]), calls[n]);
    }
  }

  lemma AllowBounded(c: Config, w: Table, call: Call)
    requires |w| <= MAX_TRACKED_IPS
    ensures |Allow(c, w, call).0| <= MAX_TRACKED_IPS
  {
    PrunedSize(c, w, call.now);
    var ready, after := Ready(c, w, call.now), Allow(c, w, call).0;
    if c.max != 0 && !TableFull(c, w, call) {
      assert after.Keys == ready.Keys + {call.ip};
      assert |after.Keys| == |after| && |ready.Keys| == |ready|;
    }
  }

  lemma PrunedSize(c: Config, w: Table, now: int)
    ensures |Pruned(c, w, now)| <= |w|
  {
    var p := Pruned(c, w, now);
    assert p.Keys <= w.Keys;
    assert w.Keys == p.Keys + (w.Keys - p.Keys);
    assert |p.Keys| == |p| && |w.Keys| == |w|;
  }

  // ---------------------------------------------------------------- pruning loses nothing

  /** What an address's window would be in a table that never prunes, given the calls that
      were not refused for lack of room. */
  function Tracked(c: Config, calls: seq<Call>, ip: Ip): Option<Window> {
    if calls == [] then None
    else
      var n := |calls| - 1;
      var before := Tracked(c, calls[..n], ip);
      if calls[n].ip != ip || c.max == 0 || TableFull(c, TableAfter(c, calls[..n]), calls[n]) then before
      else Some(Bump(c, before, calls[n].now).0)
  }

  /** The table holds the tracked window, or has dropped it after it was over. */
  ghost predicate Mirrors(c: Config, w: Table, ip: Ip, tracked: Option<Window>, now: int) {
    if ip in w then tracked == Some(w[ip])
    else tracked.None? || Expired(c, tracked.value, now)
  }

  /** An expired window counts like none. */
  lemma BumpForgets(c: Config, w: Window, now: int)
    requires Usable(c) && Expired(c, w, now)
    ensures Bump(c, Some(w), now) == Bump(c, None, now)
  {}

  lemma MirrorsLater(c: Config, w: Table, ip: Ip, tracked: Option<Window>, now: int, later: int)
    requires Mirrors(c, w, ip, tracked, now) && now <= later
    ensures Mirrors(c, w, ip, tracked, later)
  {}

  lemma MirrorsPruned(c: Config, w: Table, ip: Ip, tracked: Option<Window>, now: int)
    requires Usable(c) && Mirrors(c, w, ip, tracked, now)
    ensures Mirrors(c, Pruned(c, w, now), ip, tracked, now)
    ensures Mirrors(c, Ready(c, w, now), ip, tracked, now)
  {}

  /** After any run with a steady clock, at the time of its last call. */
  lemma {:induction false} TableMirrors(c: Config, calls: seq<Call>, ip: Ip)
    requires Usable(c) && Steady(calls) && calls != []
    ensures Mirrors(c, TableAfter(c, calls), ip, Tracked(c, calls, ip), calls[|calls| - 1].now)
  {
    var n := |calls| - 1;
    var w, tracked, now := TableAfter(c, calls[..n]), Tracked(c, calls[..n], ip), calls[n].now;
    if n > 0 {
      TableMirrors(c, calls[..n], ip);
      MirrorsLater(c, w, ip, tracked, calls[n - 1].now, now);
    }
    MirrorsPruned(c, w, ip, tracked, now);
    if ip == calls[n].ip && tracked.Some? && Expired(c, tracked.value, now) {
      BumpForgets(c, tracked.value, now);
    }
    hide Bump, Pruned, Ready, TableFull;
  }

  /** Each call that finds room is answered from the tracked window. */
  lemma AnswerIsTracked(c: Config, calls: seq<Call>, i: nat)
    requires Usable(c) && Steady(calls) && i < |calls|
    ensures Answer(c, calls, i) <==>
            c.max != 0 && !TableFull(c, TableAfter(c, calls[..i]), calls[i])
            && Bump(c, Tracked(c, calls[..i], calls[i].ip), calls[i].now).1
  {
    var w, ip, now := TableAfter(c, calls[..i]), calls[i].ip, calls[i].now;
    var tracked := Tracked(c, calls[..i], ip);
    if i > 0 {
      TableMirrors(c, calls[..i], ip);
      MirrorsLater(c, w, ip, tracked, calls[i - 1].now, now);
    }
    MirrorsPruned(c, w, ip, tracked, now);
    if tracked.Some? && Expired(c, tracked.value, now) {
      BumpForgets(c, tracked.value, now);
    }
    hide Bump, Pruned, Ready, TableFull;
  }

  /** The limiter with an unbounded table. */
  function UnboundedAfter(c: Config, calls: seq<Call>): Table {
    if calls == [] then map[]
    else
      var n := |calls| - 1;
      var w := UnboundedAfter(c, calls[..n]);
      if c.max == 0 then w else w[calls[n].ip := Bump(c, Entry(w, calls[n].ip), calls[n].now).0]
  }

  predicate UnboundedAnswer(c: Config, calls: seq<Call>, i: nat)
    requires i < |calls|
  {
    c.max != 0 && Bump(c, Entry(UnboundedAfter(c, calls[..i]), calls[i].ip), calls[i].now).1
  }

  predicate NeverFull(c: Config, calls: seq<Call>) {
    forall i :: 0 <= i < |calls| ==> !TableFull(c, TableAfter(c, calls[..i]), calls[i])
  }

  lemma {:induction false} TrackedIsUnbounded(c: Config, calls: seq<Call>, ip: Ip)
    requires NeverFull(c, calls)
    ensures Tracked(c, calls, ip) == Entry(UnboundedAfter(c, calls), ip)
  {
    if calls != [] {
      var n := |calls| - 1;
      NeverFullPrefix(c, calls, n);
      TrackedIsUnbounded(c, calls[..n], ip);
      hide Bump, TableFull;
    }
  }

  lemma NeverFullPrefix(c: Config, calls: seq<Call>, n: nat)
    requires NeverFull(c, calls) && n <= |calls|
    ensures NeverFull(c, calls[..n])
  {
    hide TableFull;
    forall i | 0 <= i < n ensures !TableFull(c, TableAfter(c, calls[..n][..i]), calls[..n][i]) {
      assert calls[..n][..i] == calls[..i];
    }
  }

  /** As long as the table-full refusal is not taken, pruning changes no answer. */
  lemma PruningIsInvisible(c: Config, calls: seq<Call>, i: nat)
    requires Usable(c) && Steady(calls) && NeverFull(c, calls) && i < |calls|
    ensures Answer(c, calls, i) == UnboundedAnswer(c, calls, i)
  {
    hide Bump, TableFull;
    NeverFullPrefix(c, calls, i);
    TrackedIsUnbounded(c, calls[..i], calls[i].ip);
    AnswerIsTracked(c, calls, i);
  }

  // ---------------------------------------------------------------- the rate over any interval

  /** The allowed times seen from the current window: its own, at most one window's worth
      before them, and the rest further back than a whole window. */
  ghost predicate Accounted(c: Config, times: seq<int>, w: Option<Window>) {
    && Sorted(times) && Spread(times, 2 * c.max, c.window + 1)
    && (w.None? ==> times == [])
    && (w.Some? ==> exists k: nat :: InWindows(c, times, w.value, k))
  }

  predicate InWindows(c: Config, times: seq<int>, w: Window, k: nat) {
    && w.count <= c.max && k + w.count <= |times| <= k + w.count + c.max
    && (forall i :: |times| - w.count <= i < |times| ==> w.start <= times[i] < w.start + c.window)
    && (forall i :: 0 <= i < |times| - w.count ==> times[i] < w.start)
    && (forall i :: 0 <= i < k ==> times[i] < w.start - c.window)
  }

  /** Starting a new window leaves at most the old window's times within reach. */
  lemma NewWindow(c: Config, times: seq<int>, w: Option<Window>, now: int)
    requires Usable(c) && Accounted(c, times, w)
    requires w.Some? ==> Expired(c, w.value, now)
    ensures Accounted(c, times, Some(Window(now, 0)))
  {
    if w.None? {
      assert InWindows(c, times, Window(now, 0), 0);
    } else {
      var k: nat :| InWindows(c, times, w.value, k);
      assert InWindows(c, times, Window(now, 0), |times| - w.value.count);
    }
  }

  /** One more allowed request in the current window. */
  lemma OneMore(c: Config, times: seq<int>, w: Window, now: int)
    requires Usable(c) && Accounted(c, times, Some(w)) && w.count < c.max
    requires w.start <= now < w.start + c.window && (times != [] ==> times[|times| - 1] <= now)
    ensures Accounted(c, times + [now], Some(Window(w.start, w.count + 1)))
  {
    var k: nat :| InWindows(c, times, w, k);
    SortedSnoc(times, now);
    SpreadSnoc(times, now, 2 * c.max, c.window + 1);
    assert InWindows(c, times + [now], Window(w.start, w.count + 1), k);
  }

  lemma BumpAccounts(c: Config, times: seq<int>, w: Option<Window>, now: int)
    requires Usable(c) && c.max > 0 && Accounted(c, times, w)
    requires (times != [] ==> times[|times| - 1] <= now) && (w.Some? ==> w.value.start <= now)
    ensures var (u, ok) := Bump(c, w, now);
            Accounted(c, times + (if ok then [now] else []), Some(u)) && u.start <= now
  {
    var (u, ok) := Bump(c, w, now);
    var fresh_ := w.None? || Expired(c, w.value, now);
    var v := if fresh_ then Window(now, 0) else w.value;
    if fresh_ { NewWindow(c, times, w, now); }
    if ok { OneMore(c, times, v, now); } else { assert times + [] == times; }
  }

  lemma {:induction false} RunAccounts(c: Config, calls: seq<Call>, ip: Ip)
    requires Usable(c) && c.max > 0 && Steady(calls)
    ensures var times, w := AllowedTimes(c, calls, ip), Tracked(c, calls, ip);
            && Accounted(c, times, w)
            && (calls != [] ==>
                  && (times != [] ==> times[|times| - 1] <= calls[|calls| - 1].now)
                  && (w.Some? ==> w.value.start <= calls[|calls| - 1].now))
  {
    hide *;
    RunUnfolds(c, calls, ip);
    if calls == [] {
      NothingAccounted(c);
    } else {
      var n := |calls| - 1;
      SteadyFront(calls);
      RunAccounts(c, calls[..n], ip);
      RunUnfolds(c, calls[..n], ip);
      assert n > 0 ==> calls[..n][n - 1] == calls[n - 1];
      AnswerIsTracked(c, calls, n);
      if calls[n].ip == ip && !TableFull(c, TableAfter(c, calls[..n]), calls[n]) {
        BumpAccounts(c, AllowedTimes(c, calls[..n], ip), Tracked(c, calls[..n], ip), calls[n].now);
      }
    }
  }

  lemma RunUnfolds(c: Config, calls: seq<Call>, ip: Ip)
    ensures calls == [] ==> AllowedTimes(c, calls, ip) == [] && Tracked(c, calls, ip) == None
    ensures calls != [] ==>
              var n := |calls| - 1;
              var times, w, call := AllowedTimes(c, calls[..n], ip), Tracked(c, calls[..n], ip), calls[n];
              && AllowedTimes(c, calls, ip) == times + (if call.ip == ip && Answer(c, calls, n) then [call.now] else [])
              && times + [] == times
              && Tracked(c, calls, ip) ==
                 if call.ip == ip && c.max != 0 && !TableFull(c, TableAfter(c, calls[..n]), call)
                 then Some(Bump(c, w, call.now).0) else w
  {
    hide Answer, TableFull, Bump, TableAfter;
  }

  lemma NothingAccounted(c: Config)
    requires Usable(c)
    ensures Accounted(c, [], None)
  {}

  lemma SteadyFront(calls: seq<Call>)
    requires Steady(calls) && calls != []
    ensures Steady(calls[..|calls| - 1]) && (|calls| > 1 ==> calls[|calls| - 2].now <= calls[|calls| - 1].now)
  {}

  /** With a steady clock and a positive window, one address is allowed at most twice the
      limit in any closed interval of the window's length, pruning and refusals included. */
  lemma RateBound(c: Config, calls: seq<Call>, ip: Ip, a: int)
    requires Usable(c) && Steady(calls)
    ensures CountIn(AllowedTimes(c, calls, ip), a, a + c.window + 1) <= 2 * c.max
  {
    if c.max == 0 {
      NothingAllowed(c, calls, ip);
    } else {
      RunAccounts(c, calls, ip);
      hide AllowedTimes, Tracked, CountIn, InWindows, Steady;
      SpreadBoundsCount(AllowedTimes(c, calls, ip), 2 * c.max, a, c.window + 1);
      assert a + (c.window + 1) == a + c.window + 1;
    }
  }

  lemma {:induction false} NothingAllowed(c: Config, calls: seq<Call>, ip: Ip)
    requires c.max == 0
    ensures AllowedTimes(c, calls, ip) == []
  {
    if calls != [] { NothingAllowed(c, calls[..|calls| - 1], ip); }
  }

  /** The addresses whose windows are running: begun less than a window's length ago. */
  function Running(c: Config, w: Table, now: int): set<Ip> {
    set ip | ip in w && now - w[ip].start < c.window
  }

  lemma PrunedAreRunning(c: Config, w: Table, now: int)
    requires Usable(c)
    ensures Pruned(c, w, now).Keys == Running(c, w, now) && |Pruned(c, w, now)| == |Running(c, w, now)|
  {
    assert Pruned(c, w, now).Keys == Running(c, w, now);
  }

  /** A request is allowed exactly when there is room for its address (fewer than 65,536 of
      them are held, or with a running window, or its own window is running) and the address
      has not used up the limit in the window it is in. */
  lemma AllowsExactly(c: Config, w: Table, call: Call)
    requires Usable(c)
    ensures var running := Running(c, w, call.now);
            Allow(c, w, call).1 <==>
            && (|w| < 65536 || |running| < 65536 || call.ip in running)
            && (if call.ip in running && w[call.ip].start <= call.now then w[call.ip].count < c.max else c.max > 0)
  {
    PrunedAreRunning(c, w, call.now);
  }

  /** Being refused is earned: with a steady clock, an address that finds room is refused only
      when the limit's worth of its requests was allowed within the last window's length. */
  lemma RefusalIsEarned(c: Config, calls: seq<Call>, i: nat)
    requires Usable(c) && Steady(calls) && i < |calls| && !Answer(c, calls, i)
    requires var w, now := TableAfter(c, calls[..i]), calls[i].now;
             |w| < 65536 || |Running(c, w, now)| < 65536 || calls[i].ip in Running(c, w, now)
    ensures var now := calls[i].now;
            CountIn(AllowedTimes(c, calls[..i], calls[i].ip), now - c.window + 1, now + 1) >= c.max
  {
    hide *;
    if c.max > 0 {
      var front, ip, now := calls[..i], calls[i].ip, calls[i].now;
      RoomIsNotFull(c, TableAfter(c, front), calls[i]);
      FrontSteady(calls, i);
      AnswerIsTracked(c, calls, i);
      RunUnfolds(c, front, ip);
      RunAccounts(c, front, ip);
      BumpRefuses(c, Tracked(c, front, ip), now);
      SpentWindow(c, AllowedTimes(c, front, ip), Tracked(c, front, ip).value, now);
    }
  }

  lemma RoomIsNotFull(c: Config, w: Table, call: Call)
    requires Usable(c)
    requires |w| < 65536 || |Running(c, w, call.now)| < 65536 || call.ip in Running(c, w, call.now)
    ensures !TableFull(c, w, call)
  {
    PrunedAreRunning(c, w, call.now);
    hide Pruned;
  }

  lemma FrontSteady(calls: seq<Call>, i: nat)
    requires Steady(calls) && i < |calls|
    ensures Steady(calls[..i]) && (i > 0 ==> calls[..i][|calls[..i]| - 1].now <= calls[i].now)
  {}

  lemma BumpRefuses(c: Config, w: Option<Window>, now: int)
    requires Usable(c) && c.max > 0 && !Bump(c, w, now).1 && (w.Some? ==> w.value.start <= now)
    ensures w.Some? && !Expired(c, w.value, now) && w.value.count >= c.max
  {}

  lemma SpentWindow(c: Config, times: seq<int>, w: Window, now: int)
    requires Accounted(c, times, Some(w)) && !Expired(c, w, now) && w.count >= c.max
    requires times != [] ==> times[|times| - 1] <= now
    ensures CountIn(times, now - c.window + 1, now + 1) >= c.max
  {
    var k: nat :| InWindows(c, times, w, k);
    LastAreCounted(times, c.max, now - c.window + 1, now + 1);
  }

  /** Without a positive window there is no limit but the table's size. */
  lemma NoWindowNoLimit(c: Config, w: Table, call: Call)
    requires I64_MIN < c.window <= 0 && c.max > 0
    ensures Allow(c, w, call).1 <==> !TableFull(c, w, call)
  {}

  /** The first `n` of: the limit's worth of calls at time 0, then as many a window later. */
  function BurstCalls(c: Config, ip: Ip, n: nat): (calls: seq<Call>)
    ensures |calls| == n
  {
    seq(n, i => Call(ip, if i < c.max then 0 else c.window))
  }

  lemma {:induction false} BurstAllowed(c: Config, ip: Ip, n: nat)
    requires Usable(c) && 0 < n <= 2 * c.max
    ensures TableAfter(c, BurstCalls(c, ip, n)) == BurstTable(c, ip, n)
    ensures AllowedTimes(c, BurstCalls(c, ip, n), ip) == seq(n, i => if i < c.max then 0 else c.window)
  {
    var calls := BurstCalls(c, ip, n);
    assert calls[..n - 1] == BurstCalls(c, ip, n - 1);
    BurstStep(c, ip, n);
    hide Allow;
    if n > 1 {
      BurstAllowed(c, ip, n - 1);
    } else {
      assert TableAfter(c, calls[..0]) == map[] && AllowedTimes(c, calls[..0], ip) == [];
    }
    assert Allow(c, TableAfter(c, calls[..n - 1]), calls[n - 1]) == (BurstTable(c, ip, n), true);
  }

  function BurstTable(c: Config, ip: Ip, n: nat): Table {
    if n == 0 then map[]
    else map[ip := if n <= c.max then Window(0, n) else Window(c.window, n - c.max)]
  }

  lemma BurstStep(c: Config, ip: Ip, n: nat)
    requires Usable(c) && 0 < n <= 2 * c.max
    ensures Allow(c, BurstTable(c, ip, n - 1), Call(ip, if n - 1 < c.max then 0 else c.window))
         == (BurstTable(c, ip, n), true)
  {
    var w, now := BurstTable(c, ip, n - 1), if n - 1 < c.max then 0 else c.window;
    assert w.Keys <= {ip};
    assert |w| == |w.Keys| <= 1;
    var (u, ok) := Bump(c, Entry(w, ip), now);
    assert ok && map[ip := u] == BurstTable(c, ip, n);
    assert w[ip := u] == map[ip := u];
  }

  /** The bound is reached: a full window's worth at the start of one window and another
      at the start of the next are all allowed. */
  lemma RateBoundIsReached(c: Config, ip: Ip)
    requires Usable(c) && c.max > 0
    ensures var calls := BurstCalls(c, ip, 2 * c.max);
            Steady(calls) && CountIn(AllowedTimes(c, calls, ip), 0, c.window + 1) == 2 * c.max
  {
    BurstAllowed(c, ip, 2 * c.max);
    AllCounted(AllowedTimes(c, BurstCalls(c, ip, 2 * c.max), ip), 0, c.window + 1);
  }
}
