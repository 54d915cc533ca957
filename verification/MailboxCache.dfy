/** The mailbox password store's stamped cache under interleaving: threads that
    stat, compare, load and store, against upserts, removes and outside writes. */
module MailboxCache {
  import opened Common

  type Records = map<string, string>

  /** File metadata the cache is compared by. */
  datatype Stamp = Stamp(mtime: int, len: nat)

  /** What the file holds after a write: nothing there, or a stamped file that parses or not. */
  datatype Version = Missing | Present(stamp: Stamp, parsed: Result<Records>)

  /** What `load` answers on a version: a missing file is an empty store. */
  function Loaded(v: Version): Result<Records> {
    if v.Missing? then Ok(map[]) else v.parsed
  }

  /** A cache entry. `statAt` and `readAt` are history variables: the versions
      current when its stamp and its contents were read. No step depends on them. */
  datatype Entry = Entry(stamp: Stamp, records: Records, statAt: nat, readAt: nat)

  /** A thread between its atomic steps. The numbers are history variables too:
      the version current at the call, and those at its reads. */
  datatype Pc =
    | Idle
    | Called(start: nat)
    | SawMissing(start: nat, statAt: nat)
    | Statted(start: nat, stamp: Stamp, statAt: nat)
    | Loading(start: nat, stamp: Stamp, statAt: nat)
    | LoadedOk(start: nat, stamp: Stamp, statAt: nat, records: Records, readAt: nat)
    | LoadedErr(start: nat, readAt: nat)
    | Returned(start: nat, end: nat, answer: Result<Records>)
    | Written

  type Thread = nat

  /** Every version the file has had, the cache, and the threads. */
  datatype System = System(history: seq<Version>, cache: Option<Entry>, threads: map<Thread, Pc>)

  function PcOf(s: System, t: Thread): Pc {
    if t in s.threads then s.threads[t] else Idle
  }

  function Goto(s: System, t: Thread, pc: Pc): System {
    s.(threads := s.threads[t := pc])
  }

  // ---------------------------------------------------------------- the steps of one thread

  /** One atomic step of a thread inside `get`. */
  function GetStep(s: System, t: Thread): System
    requires s.history != []
  {
    var now, v := |s.history| - 1, s.history[|s.history| - 1];
    match PcOf(s, t)
    case Called(start) =>
      if v.Missing? then Goto(s, t, SawMissing(start, now)) else Goto(s, t, Statted(start, v.stamp, now))
    case SawMissing(start, _) => Goto(s.(cache := None), t, Returned(start, now, Ok(map[])))
    case Statted(start, stamp, statAt) =>
      if s.cache.Some? && s.cache.value.stamp == stamp then Goto(s, t, Returned(start, now, Ok(s.cache.value.records)))
      else Goto(s, t, Loading(start, stamp, statAt))
    case Loading(start, stamp, statAt) =>
      (match Loaded(v)
       case Ok(records) => Goto(s, t, LoadedOk(start, stamp, statAt, records, now))
       case Err => Goto(s, t, LoadedErr(start, now)))
    case LoadedOk(start, stamp, statAt, records, readAt) =>
      Goto(s.(cache := Some(Entry(stamp, records, statAt, readAt))), t, Returned(start, now, Ok(records)))
    case LoadedErr(start, _) => Goto(s.(cache := None), t, Returned(start, now, Err))
    case Written => Goto(s.(cache := None), t, Idle)
    case _ => s
  }

  /** A locked change of the records, as `upsert` and `remove` make it. */
  datatype Change = Put(key: string, record: string) | Delete(key: string)

  function Apply(c: Change, r: Records): Records {
    match c
    case Put(k, v) => r[k := v]
    case Delete(k) => r - {k}
  }

  datatype Event =
    | Call(t: Thread)                                // a thread enters `get`
    | Advance(t: Thread)                             // its next atomic step
    | Locked(t: Thread, change: Change, stamp: Stamp)
    | Outside(v: Version)                            // any other process writes or deletes the file

  /** The version a locked change writes, if it writes one. */
  function Rewrite(s: System, change: Change, stamp: Stamp): Option<Version>
    requires s.history != []
  {
    match Loaded(s.history[|s.history| - 1])
    case Err => None
    case Ok(r) => if change.Delete? && change.key !in r then None else Some(Present(stamp, Ok(Apply(change, r))))
  }

  function Step(s: System, e: Event): System
    requires s.history != []
  {
    match e
    case Call(t) =>
      if PcOf(s, t).Idle? || PcOf(s, t).Returned? then Goto(s, t, Called(|s.history| - 1)) else s
    case Advance(t) => GetStep(s, t)
    case Locked(t, change, stamp) =>
      if !PcOf(s, t).Idle? && !PcOf(s, t).Returned? then s
      else
        (match Rewrite(s, change, stamp)
         case None => s
         case Some(v) => Goto(s.(history := s.history + [v]), t, Written))
    case Outside(v) => s.(history := s.history + [v])
  }

  function Run(first: Version, events: seq<Event>): (s: System)
    ensures s.history != []
  {
    if events == [] then System([first], None, map[])
    else Step(Run(first, events[..|events| - 1]), events[|events| - 1])
  }

  /** No two versions of the file carry the same stamp. */
  predicate StampsFresh(history: seq<Version>) {
    forall i, j :: 0 <= i < j < |history| && history[i].Present? && history[j].Present? ==>
      history[i].stamp != history[j].stamp
  }

  /** Repeated stamps do no harm: contents read at or after a version, by the time an equally
      stamped version is current, are what that later version holds. */
  predicate Harmless(history: seq<Version>) {
    forall i, r, j :: 0 <= i <= r < j < |history| && SameStampAround(history, i, r, j) ==>
      Loaded(history[j]) == Loaded(history[r])
  }

  /** Contents read at `r` may be stored under the stamp of `i`, and `j` carries it again. */
  predicate SameStampAround(h: seq<Version>, i: int, r: int, j: int)
    requires 0 <= i <= r < j < |h|
  {
    h[i].Present? && h[j].Present? && h[i].stamp == h[j].stamp && Loaded(h[r]).Ok?
  }

  // ---------------------------------------------------------------- what a thread knows

  predicate StampedAt(h: seq<Version>, at: nat, stamp: Stamp) {
    at < |h| && h[at].Present? && h[at].stamp == stamp
  }

  predicate AnsweredAt(h: seq<Version>, at: nat, answer: Result<Records>) {
    at < |h| && Loaded(h[at]) == answer
  }

  /** The answer is what loading the file gave at some moment of the call, an error included. */
  ghost predicate HeldBetween(h: seq<Version>, start: nat, end: nat, answer: Result<Records>) {
    exists at :: start <= at <= end && AnsweredAt(h, at, answer)
  }

  predicate EntryOk(h: seq<Version>, e: Entry) {
    StampedAt(h, e.statAt, e.stamp) && AnsweredAt(h, e.readAt, Ok(e.records)) && e.statAt <= e.readAt
  }

  ghost predicate PcOk(h: seq<Version>, pc: Pc) {
    match pc
    case Idle => true
    case Called(start) => start < |h|
    case SawMissing(start, statAt) => start <= statAt < |h| && h[statAt].Missing?
    case Statted(start, stamp, statAt) => start <= statAt && StampedAt(h, statAt, stamp)
    case Loading(start, stamp, statAt) => start <= statAt && StampedAt(h, statAt, stamp)
    case LoadedOk(start, stamp, statAt, records, readAt) =>
      start <= statAt <= readAt && StampedAt(h, statAt, stamp) && AnsweredAt(h, readAt, Ok(records))
    case LoadedErr(start, readAt) => start <= readAt && AnsweredAt(h, readAt, Err)
    case Returned(start, end, answer) => HeldBetween(h, start, end, answer)
    case Written => true
  }

  ghost predicate Invariant(s: System) {
    && s.history != []
    && (s.cache.Some? ==> EntryOk(s.history, s.cache.value))
    && (forall t :: t in s.threads ==> PcOk(s.history, s.threads[t]))
  }

  lemma PcKeeps(h: seq<Version>, pc: Pc, v: Version)
    requires PcOk(h, pc)
    ensures PcOk(h + [v], pc)
  {
    if pc.Returned? {
      var at :| pc.start <= at <= pc.end && AnsweredAt(h, at, pc.answer);
      assert AnsweredAt(h + [v], at, pc.answer);
    }
  }

  /** A hit: the entry was read during the call, or what it holds is current at the stat. */
  lemma HitIsCurrent(h: seq<Version>, start: nat, stamp: Stamp, statAt: nat, e: Entry)
    requires Harmless(h) && EntryOk(h, e) && e.stamp == stamp
    requires start <= statAt && StampedAt(h, statAt, stamp)
    ensures HeldBetween(h, start, |h| - 1, Ok(e.records))
  {
    if e.readAt >= start {
      assert AnsweredAt(h, e.readAt, Ok(e.records));
    } else {
      assert SameStampAround(h, e.statAt, e.readAt, statAt);
      assert AnsweredAt(h, statAt, Ok(e.records));
    }
  }

  lemma GotoKeeps(s: System, t: Thread, pc: Pc, cache: Option<Entry>)
    requires Invariant(s) && PcOk(s.history, pc)
    requires cache.Some? ==> EntryOk(s.history, cache.value)
    ensures Invariant(Goto(s.(cache := cache), t, pc))
  {}

  lemma GetStepKeeps(s: System, t: Thread)
    requires Invariant(s) && Harmless(s.history)
    ensures Invariant(GetStep(s, t)) && GetStep(s, t).history == s.history
  {
    var h, next := s.history, GetStep(s, t);
    var pc := PcOf(s, t);
    assert PcOk(h, pc);
    match pc {
      case Statted(start, stamp, statAt) =>
        if s.cache.Some? && s.cache.value.stamp == stamp {
          HitIsCurrent(h, start, stamp, statAt, s.cache.value);
        }
      case SawMissing(start, statAt) => assert AnsweredAt(h, statAt, Ok(map[]));
      case LoadedOk(_, _, _, records, readAt) => assert AnsweredAt(h, readAt, Ok(records));
      case LoadedErr(_, readAt) => assert AnsweredAt(h, readAt, Err);
      case _ =>
    }
    if next != s {
      assert next == Goto(s.(cache := next.cache), t, next.threads[t]);
      hide GetStep, Invariant;
      GotoKeeps(s, t, next.threads[t], next.cache);
    }
  }

  lemma WriteKeeps(s: System, v: Version)
    requires Invariant(s)
    ensures Invariant(s.(history := s.history + [v]))
  {
    forall t | t in s.threads ensures PcOk(s.history + [v], s.threads[t]) {
      PcKeeps(s.history, s.threads[t], v);
    }
  }

  lemma StepKeeps(s: System, e: Event)
    requires Invariant(s) && Harmless(Step(s, e).history)
    ensures Invariant(Step(s, e))
  {
    match e {
      case Call(_) =>
      case Advance(t) =>
        assert GetStep(s, t).history == s.history;
        GetStepKeeps(s, t);
      case Locked(t, change, stamp) =>
        if Rewrite(s, change, stamp).Some? { WriteKeeps(s, Rewrite(s, change, stamp).value); }
      case Outside(v) => WriteKeeps(s, v);
    }
  }

  lemma HistoryGrows(s: System, e: Event)
    requires s.history != []
    ensures s.history <= Step(s, e).history
  {}

  lemma HarmlessPrefix(g: seq<Version>, h: seq<Version>)
    requires g <= h && Harmless(h)
    ensures Harmless(g)
  {
    forall i, r, j | 0 <= i <= r < j < |g| && SameStampAround(g, i, r, j) ensures Loaded(g[j]) == Loaded(g[r]) {
      assert SameStampAround(h, i, r, j);
    }
  }

  lemma {:induction false} RunKeeps(first: Version, events: seq<Event>)
    requires Harmless(Run(first, events).history)
    ensures Invariant(Run(first, events))
  {
    if events != [] {
      var n := |events| - 1;
      var before := Run(first, events[..n]);
      HistoryGrows(before, events[n]);
      HarmlessPrefix(before.history, Run(first, events).history);
      RunKeeps(first, events[..n]);
      StepKeeps(before, events[n]);
    }
  }

  /** Every answer of the run is what loading the file gave at some moment of its call. */
  ghost predicate AllAnswersHeld(s: System) {
    forall t :: t in s.threads && s.threads[t].Returned? ==>
      HeldBetween(s.history, s.threads[t].start, s.threads[t].end, s.threads[t].answer)
  }

  /** The exact condition on what the file goes through: in every interleaving with these versions
      each answer, an error included, is what loading the file gave at some moment between the
      call and its return, if and only if repeated stamps do no harm. */
  lemma CacheIsRightExactlyWhen(h: seq<Version>)
    requires h != []
    ensures Harmless(h) <==> forall events :: Run(h[0], events).history == h ==> AllAnswersHeld(Run(h[0], events))
  {
    if Harmless(h) {
      forall events | Run(h[0], events).history == h ensures AllAnswersHeld(Run(h[0], events)) {
        RunKeeps(h[0], events);
      }
    } else {
      var i, r, j :| 0 <= i <= r < j < |h| && SameStampAround(h, i, r, j) && Loaded(h[j]) != Loaded(h[r]);
      var events := RepeatedStampIsStale(h, i, r, j);
    }
  }

  /** In particular, when every write gives the file a stamp it never had. */
  lemma AnswersAreLinearizable(first: Version, events: seq<Event>)
    requires StampsFresh(Run(first, events).history)
    ensures AllAnswersHeld(Run(first, events))
  {
    var h := Run(first, events).history;
    assert Harmless(h);
    RunKeeps(first, events);
  }

  /** The start and end of a call are real: they are the versions current at its first
      and last step. */
  lemma CallAndReturnTimes(s: System, t: Thread)
    requires s.history != []
    ensures (PcOf(s, t).Idle? || PcOf(s, t).Returned?) ==> PcOf(Step(s, Call(t)), t) == Called(|s.history| - 1)
    ensures !PcOf(s, t).Returned? && PcOf(Step(s, Advance(t)), t).Returned? ==>
              PcOf(Step(s, Advance(t)), t).end == |s.history| - 1
    ensures PcOf(s, t).Called? || PcOf(s, t).SawMissing? || PcOf(s, t).Statted? || PcOf(s, t).Loading?
            || PcOf(s, t).LoadedOk? || PcOf(s, t).LoadedErr? ==>
              PcOf(Step(s, Advance(t)), t).start == PcOf(s, t).start
  {}

  /** A `get` is over after at most four steps of its own, whatever the file and the cache hold. */
  lemma GetFinishes(s: System, t: Thread)
    requires s.history != [] && PcOf(s, t).Called?
    ensures var a := GetStep(s, t);
            var b := GetStep(a, t);
            var c := GetStep(b, t);
            PcOf(GetStep(c, t), t).Returned?
  {}

  /** The records after a change: the key set or gone, and all others as they were. */
  ghost predicate Changed(change: Change, before: Records, after: Records) {
    && (change.Put? ==> change.key in after && after[change.key] == change.record)
    && (change.Delete? ==> change.key !in after)
    && forall k :: k != change.key ==> (k in after <==> k in before) && (k in before ==> after[k] == before[k])
  }

  /** A locked change writes the changed records under its stamp, unless the file cannot be
      loaded or the record to delete is not there; then nothing happens. */
  lemma ChangeIsWritten(s: System, t: Thread, change: Change, stamp: Stamp)
    requires s.history != [] && (PcOf(s, t).Idle? || PcOf(s, t).Returned?)
    ensures var h, next := s.history, Step(s, Locked(t, change, stamp));
            var before := Loaded(h[|h| - 1]);
            if before.Err? || (change.Delete? && change.key !in before.value) then next == s
            else exists after :: Changed(change, before.value, after) && next.history == h + [Present(stamp, Ok(after))]
  {
    var before := Loaded(s.history[|s.history| - 1]);
    if before.Ok? && !(change.Delete? && change.key !in before.value) {
      var after := Apply(change, before.value);
      assert Changed(change, before.value, after);
      assert Step(s, Locked(t, change, stamp)).history == s.history + [Present(stamp, Ok(after))];
    }
  }

  /** A `get` called after a change was written, with no write since, answers the changed
      records, as long as repeated stamps do no harm. */
  lemma ChangeIsSeen(first: Version, events: seq<Event>, t: Thread, change: Change, stamp: Stamp, more: seq<Event>,
                     u: Thread)
    requires var s, r := Run(first, events), Run(first, events + [Locked(t, change, stamp)] + more);
             && (PcOf(s, t).Idle? || PcOf(s, t).Returned?) && Loaded(s.history[|s.history| - 1]).Ok?
             && (change.Delete? ==> change.key in Loaded(s.history[|s.history| - 1]).value)
             && r.history == Step(s, Locked(t, change, stamp)).history && Harmless(r.history)
             && PcOf(r, u).Returned? && PcOf(r, u).start >= |s.history|
    ensures var s, r := Run(first, events), Run(first, events + [Locked(t, change, stamp)] + more);
            && PcOf(r, u).answer.Ok?
            && Changed(change, Loaded(s.history[|s.history| - 1]).value, PcOf(r, u).answer.value)
  {
    var s, all := Run(first, events), events + [Locked(t, change, stamp)] + more;
    var r := Run(first, all);
    ChangeIsWritten(s, t, change, stamp);
    RunKeeps(first, all);
    hide Run, Step, Harmless, Invariant, Changed;
    AnswerIsLast(r, u);
  }

  lemma AnswerIsLast(s: System, u: Thread)
    requires Invariant(s) && PcOf(s, u).Returned? && PcOf(s, u).start >= |s.history| - 1
    ensures PcOf(s, u).answer == Loaded(s.history[|s.history| - 1])
  {
    var pc := s.threads[u];
    assert PcOk(s.history, pc);
    var at :| pc.start <= at <= pc.end && AnsweredAt(s.history, at, pc.answer);
    assert at == |s.history| - 1;
  }

  /** A harmful repetition defeats the cache: a slow `get` stats version `i`, reads version `r`
      and stores it late; a `get` that runs entirely at version `j` answers from it. */
  lemma RepeatedStampIsStale(h: seq<Version>, i: nat, r: nat, j: nat) returns (events: seq<Event>)
    requires i <= r < j < |h| && SameStampAround(h, i, r, j) && Loaded(h[j]) != Loaded(h[r])
    ensures Run(h[0], events).history == h && !AllAnswersHeld(Run(h[0], events))
  {
    hide Run, Step, Loaded, AllAnswersHeld, HeldBetween;
    var stamp, records := h[i].stamp, Loaded(h[r]).value;
    var s: System;
    s, events := SlowGet(h, i, r);
    s, events := WriteUpTo(h, events, s, r + 1, j + 1);
    s, events := FastHit(h, events, s, j, Entry(stamp, records, i, r));
    s, events := WriteUpTo(h, events, s, j + 1, |h|);
    assert h[..|h|] == h;
    NotHeld(s, j, records);
  }

  lemma NotHeld(s: System, j: nat, records: Records)
    requires 0 in s.threads && s.threads[0] == Returned(j, j, Ok(records))
    requires j < |s.history| && Loaded(s.history[j]) != Ok(records)
    ensures !AllAnswersHeld(s)
  {
    assert !HeldBetween(s.history, j, j, Ok(records));
  }

  /** The first `get`, interrupted between its stat and its load. */
  lemma SlowGet(h: seq<Version>, i: nat, r: nat) returns (s: System, events: seq<Event>)
    requires i <= r < |h| && h[i].Present? && Loaded(h[r]).Ok?
    ensures Run(h[0], events) == s && s.history == h[..r + 1]
    ensures s.cache == Some(Entry(h[i].stamp, Loaded(h[r]).value, i, r)) && PcOf(s, 0).Returned?
  {
    hide Run, Loaded;
    s, events := StatOnly(h, i);
    s, events := WriteUpTo(h, events, s, i + 1, r + 1);
    s, events := Extend(h[0], events, s, Advance(0));
    assert PcOf(s, 0) == LoadedOk(i, h[i].stamp, i, Loaded(h[r]).value, r);
    s, events := Extend(h[0], events, s, Advance(0));
  }

  /** A `get` at version `i` up to its decision to load. */
  lemma StatOnly(h: seq<Version>, i: nat) returns (s: System, events: seq<Event>)
    requires i < |h| && h[i].Present?
    ensures Run(h[0], events) == s && s == System(h[..i + 1], None, map[0 := Loading(i, h[i].stamp, i)])
  {
    s, events := System(h[..1], None, map[]), [];
    assert h[..1] == [h[0]];
    s, events := WriteUpTo(h, events, s, 1, i + 1);
    hide Run;
    s, events := Extend(h[0], events, s, Call(0));
    s, events := Extend(h[0], events, s, Advance(0));
    assert s == System(h[..i + 1], None, map[0 := Statted(i, h[i].stamp, i)]);
    s, events := Extend(h[0], events, s, Advance(0));
  }

  /** A `get` that finds the cached stamp, undisturbed. */
  lemma FastHit(h: seq<Version>, events: seq<Event>, s: System, j: nat, e: Entry)
      returns (s': System, events': seq<Event>)
    requires j < |h| && Run(h[0], events) == s && s.history == h[..j + 1] && PcOf(s, 0).Returned?
    requires h[j].Present? && s.cache == Some(e) && e.stamp == h[j].stamp
    ensures Run(h[0], events') == s' && s'.history == h[..j + 1]
    ensures 0 in s'.threads && s'.threads[0] == Returned(j, j, Ok(e.records))
  {
    s', events' := Extend(h[0], events, s, Call(0));
    s', events' := Extend(h[0], events', s', Advance(0));
    assert PcOf(s', 0) == Statted(j, e.stamp, j);
    s', events' := Extend(h[0], events', s', Advance(0));
  }

  /** Outside writes that take the file from version `m - 1` to version `n - 1`. */
  lemma {:induction false} WriteUpTo(h: seq<Version>, events: seq<Event>, s: System, m: nat, n: nat)
      returns (s': System, events': seq<Event>)
    requires 1 <= m <= n <= |h| && Run(h[0], events) == s && s.history == h[..m]
    ensures s' == s.(history := h[..n]) && Run(h[0], events') == s'
    decreases n - m
  {
    if m == n {
      s', events' := s, events;
    } else {
      s', events' := Extend(h[0], events, s, Outside(h[m]));
      assert h[..m] + [h[m]] == h[..m + 1];
      s', events' := WriteUpTo(h, events', s', m + 1, n);
    }
  }

  lemma Extend(first: Version, events: seq<Event>, s: System, e: Event) returns (s': System, events': seq<Event>)
    requires s.history != [] && Run(first, events) == s
    ensures s' == Step(s, e) && events' == events + [e] && Run(first, events') == s'
  {
    s', events' := Step(s, e), events + [e];
    assert events'[..|events|] == events;
  }
}
