/** The replay ledger of time-based codes: the eight largest accepted steps,
    and how far back a clock may fall before a step can be accepted twice. */
module Ledger {
  import opened Common

  const USED_STEPS_KEPT: nat := 8
  const WINDOW_STEPS: int := 1

  /** The furthest a clock may fall below its running maximum. */
  const SAFE_FALL: int := 5

  // ---------------------------------------------------------------- booking a step

  /** Strictly descending: sorted, without duplicates. */
  predicate Descending(s: seq<int>) {
    forall i, j :: 0 <= i < j < |s| ==> s[i] > s[j]
  }

  function Insert(x: int, s: seq<int>): seq<int> {
    if s == [] || x > s[0] then [x] + s
    else if x == s[0] then s
    else [s[0]] + Insert(x, s[1..])
  }

  /** Sorting in descending order and dropping duplicates. */
  function SortDistinct(s: seq<int>): seq<int> {
    if s == [] then [] else Insert(s[0], SortDistinct(s[1..]))
  }

  function Truncate(s: seq<int>, n: nat): seq<int> {
    if |s| <= n then s else s[..n]
  }

  /** The ledger after a step was used. */
  function WithStep(ledger: seq<int>, step: int): seq<int> {
    Truncate(SortDistinct(if step in ledger then ledger else ledger + [step]), USED_STEPS_KEPT)
  }

  /** Presenting a step: refused when it is on the ledger, else accepted and booked. */
  function Present(ledger: seq<int>, step: int): (seq<int>, bool) {
    if step in ledger then (ledger, false) else (WithStep(ledger, step), true)
  }

  lemma {:induction false} InsertSorted(x: int, s: seq<int>)
    requires Descending(s)
    ensures Descending(Insert(x, s))
    ensures forall y :: y in Insert(x, s) <==> y == x || y in s
  {
    if s != [] && x < s[0] {
      assert s == [s[0]] + s[1..];
      assert Descending(s[1..]);
      InsertSorted(x, s[1..]);
      var t := Insert(x, s[1..]);
      forall j | 0 <= j < |t| ensures s[0] > t[j] {
        assert t[j] in t;
        if t[j] in s[1..] { var k :| 0 <= k < |s[1..]| && s[1..][k] == t[j]; assert s[k + 1] == t[j]; }
      }
    }
  }

  /** The sorted ledger lists the same steps, strictly descending. */
  lemma {:induction false} SortDistinctSorts(s: seq<int>)
    ensures Descending(SortDistinct(s))
    ensures forall y :: y in SortDistinct(s) <==> y in s
  {
    if s != [] {
      SortDistinctSorts(s[1..]);
      InsertSorted(s[0], SortDistinct(s[1..]));
      assert s == [s[0]] + s[1..];
    }
  }

  // ---------------------------------------------------------------- runs

  /** One attempt: the clock's step, and the step the code matched, if any. */
  datatype Attempt = Attempt(clock: int, step: Option<int>)

  predicate InWindow(a: Attempt) {
    a.step.Some? ==> a.clock - WINDOW_STEPS <= a.step.value <= a.clock + WINDOW_STEPS
  }

  /** The ledger after a run that began with an empty one. */
  function LedgerAfter(run: seq<Attempt>): seq<int> {
    if run == [] then []
    else
      var before, step := LedgerAfter(run[..|run| - 1]), run[|run| - 1].step;
      if step.None? then before else Present(before, step.value).0
  }

  /** Whether the `i`-th attempt was accepted. */
  predicate Accepted(run: seq<Attempt>, i: nat)
    requires i < |run|
  {
    run[i].step.Some? && Present(LedgerAfter(run[..i]), run[i].step.value).1
  }

  /** The clock never falls more than `fall` steps below a value it has shown. */
  predicate FallsAtMost(run: seq<Attempt>, fall: int) {
    forall i, j :: 0 <= i <= j < |run| ==> run[j].clock >= run[i].clock - fall
  }

  predicate AllInWindow(run: seq<Attempt>) {
    forall i :: 0 <= i < |run| ==> InWindow(run[i])
  }

  /** No step is accepted twice. */
  predicate NoReplay(run: seq<Attempt>) {
    forall i, j :: 0 <= i < j < |run| && Accepted(run, i) && Accepted(run, j) ==> run[i].step != run[j].step
  }

  predicate BelowAll(x: int, ledger: seq<int>) {
    forall y :: y in ledger ==> x < y
  }

  /** Accepted steps are on the ledger, or below all of a full one. */
  predicate Remembered(x: int, ledger: seq<int>) {
    x in ledger || (|ledger| == USED_STEPS_KEPT && BelowAll(x, ledger))
  }

  /** Booking a step: the new ledger, and what it still remembers. */
  lemma Booking(ledger: seq<int>, step: int)
    requires Descending(ledger) && |ledger| <= USED_STEPS_KEPT && step !in ledger
    ensures var next := WithStep(ledger, step);
            && Descending(next) && |next| <= USED_STEPS_KEPT
            && (forall y :: y in next ==> y == step || y in ledger)
            && (forall x :: x == step || Remembered(x, ledger) ==> Remembered(x, next))
  {
    var source := ledger + [step];
    var all, next := SortDistinct(source), WithStep(ledger, step);
    SortDistinctSorts(source);
    forall y | y in next ensures y == step || y in ledger {
      assert y in all && y in source;
    }
    forall x | x in all && x !in next
      ensures |next| == USED_STEPS_KEPT && BelowAll(x, next)
    {
      var k :| 0 <= k < |all| && all[k] == x;
    }
    forall x | x == step || Remembered(x, ledger) ensures Remembered(x, next) {
      if x in source {
        assert x in all;
      } else {
        LongerThan(ledger, all);
        StaysBelow(ledger, step, next, x);
      }
    }
  }

  /** A step below all of a full ledger stays below whatever replaces it. */
  lemma StaysBelow(ledger: seq<int>, step: int, next: seq<int>, x: int)
    requires Descending(ledger) && |ledger| == USED_STEPS_KEPT && Descending(next) && |next| == USED_STEPS_KEPT
    requires BelowAll(x, ledger) && x != step
    requires forall y :: y in next ==> y == step || y in ledger
    requires forall z :: z in ledger && z !in next ==> BelowAll(z, next)
    ensures BelowAll(x, next)
  {
    if step in next && step < x {
      forall z | z in ledger ensures z in next { assert x < z; }
      forall i | 0 <= i < |ledger| ensures ledger[i] > step { assert ledger[i] in ledger; }
      LongerThan(ledger + [step], next);
    }
  }

  /** A distinct listing that contains all of another is at least as long. */
  lemma LongerThan(a: seq<int>, b: seq<int>)
    requires Descending(a) && forall y :: y in a ==> y in b
    ensures |a| <= |b|
  {
    var sa, sb := set y | y in a, set y | y in b;
    DistinctSize(a);
    SizeAtMost(b);
    assert sa <= sb;
    SubsetSize(sa, sb);
  }

  lemma {:induction false} DistinctSize(a: seq<int>)
    requires Descending(a)
    ensures |set y | y in a| == |a|
  {
    if a != [] {
      assert Descending(a[1..]);
      DistinctSize(a[1..]);
      assert (set y | y in a) == {a[0]} + (set y | y in a[1..]);
      assert a[0] !in a[1..];
    }
  }

  lemma {:induction false} SizeAtMost(b: seq<int>)
    ensures |set y | y in b| <= |b|
  {
    if b != [] {
      SizeAtMost(b[1..]);
      assert (set y | y in b) == {b[0]} + (set y | y in b[1..]);
    }
  }

  lemma SubsetSize(a: set<int>, b: set<int>)
    requires a <= b
    ensures |a| <= |b|
  {
    assert b == a + (b - a) && a * (b - a) == {};
  }

  /** All steps accepted in a run. */
  function AcceptedSteps(run: seq<Attempt>): set<int> {
    if run == [] then {}
    else
      var n := |run| - 1;
      AcceptedSteps(run[..n]) + (if Accepted(run, n) then {run[n].step.value} else {})
  }

  /** After any run: the accepted steps are remembered, and the ledger holds accepted steps. */
  lemma {:induction false} LedgerRemembers(run: seq<Attempt>)
    ensures var ledger := LedgerAfter(run);
            && Descending(ledger) && |ledger| <= USED_STEPS_KEPT
            && (forall y :: y in ledger ==> y in AcceptedSteps(run))
            && (forall x :: x in AcceptedSteps(run) ==> Remembered(x, ledger))
  {
    if run != [] {
      var n := |run| - 1;
      var before, step := LedgerAfter(run[..n]), run[n].step;
      LedgerRemembers(run[..n]);
      if step.Some? && step.value !in before {
        Booking(before, step.value);
      }
      hide WithStep, Remembered;
    }
  }

  lemma {:induction false} AcceptedIn(run: seq<Attempt>, i: nat)
    requires i < |run| && Accepted(run, i)
    ensures run[i].step.value in AcceptedSteps(run)
  {
    var n := |run| - 1;
    if i < n {
      assert run[..n][..i] == run[..i];
      AcceptedIn(run[..n], i);
    }
  }

  lemma {:induction false} AcceptedFrom(run: seq<Attempt>, x: int) returns (k: nat)
    requires x in AcceptedSteps(run)
    ensures k < |run| && run[k].step == Some(x)
  {
    var n := |run| - 1;
    if run[n].step == Some(x) {
      k := n;
    } else {
      k := AcceptedFrom(run[..n], x);
    }
  }

  lemma {:induction false} FullLedgerSpan(ledger: seq<int>, k: nat)
    requires Descending(ledger) && k < |ledger|
    ensures ledger[0] >= ledger[k] + k
  {
    if k > 0 { FullLedgerSpan(ledger, k - 1); }
  }

  /** While the clock falls at most five steps, the eight kept steps are enough: no step
      in the code window is ever accepted twice. */
  lemma NoStepTwice(run: seq<Attempt>)
    requires AllInWindow(run) && FallsAtMost(run, SAFE_FALL)
    ensures NoReplay(run)
  {
    forall i, j | 0 <= i < j < |run| && Accepted(run, i) && Accepted(run, j)
      ensures run[i].step != run[j].step
    {
      var before := run[..j];
      var ledger := LedgerAfter(before);
      LedgerRemembers(before);
      assert before[..i] == run[..i];
      AcceptedIn(before, i);
      if run[i].step.value !in ledger {
        FullLedgerSpan(ledger, USED_STEPS_KEPT - 1);
        var k := AcceptedFrom(before, ledger[0]);
        hide LedgerAfter, Accepted, AcceptedSteps;
        assert InWindow(run[k]) && InWindow(run[j]);
        assert run[j].clock >= run[k].clock - SAFE_FALL;
        assert ledger[USED_STEPS_KEPT - 1] in ledger;
      }
    }
  }

  /** A run that replays step 0 when the clock falls six steps: steps 0 to 8 in turn,
      with the clock at 1 to 7, then step 0 again with the clock back at 1. */
  function Replay(): (run: seq<Attempt>)
    ensures |run| == 10
  {
    seq(10, i => if i == 0 || i == 9 then Attempt(1, Some(0)) else Attempt(if i == 8 then 7 else i, Some(i)))
  }

  lemma {:induction false} ReplayLedger(k: nat)
    requires k <= 9
    ensures LedgerAfter(Replay()[..k]) == Truncate(seq(k, i => k - 1 - i), USED_STEPS_KEPT)
  {
    if k > 0 {
      ReplayLedger(k - 1);
      assert Replay()[..k][..k - 1] == Replay()[..k - 1];
      var before := LedgerAfter(Replay()[..k - 1]);
      var step := Replay()[k - 1].step.value;
      assert step == k - 1;
      SortedAlready(before, step);
    }
  }

  /** Booking a step above a descending ledger puts it in front. */
  lemma SortedAlready(ledger: seq<int>, step: int)
    requires Descending(ledger) && forall y :: y in ledger ==> y < step
    ensures WithStep(ledger, step) == Truncate([step] + ledger, USED_STEPS_KEPT)
  {
    assert step !in ledger;
    AppendSorted(ledger, step);
  }

  lemma {:induction false} AppendSorted(ledger: seq<int>, step: int)
    requires Descending(ledger) && forall y :: y in ledger ==> y < step
    ensures SortDistinct(ledger + [step]) == [step] + ledger
  {
    if ledger == [] {
      assert [step][1..] == [];
    } else {
      assert (ledger + [step])[1..] == ledger[1..] + [step];
      assert Descending(ledger[1..]);
      forall y | y in ledger[1..] ensures y < step { assert y in ledger; }
      AppendSorted(ledger[1..], step);
      assert ledger[0] in ledger;
      InsertFront(ledger[0], ledger[1..]);
    }
  }

  lemma InsertFront(x: int, s: seq<int>)
    requires forall y :: y in s ==> y < x
    ensures Insert(x, s) == [x] + s
  {
    if s != [] { assert s[0] in s; }
  }

  /** Five is the exact bound: a clock may fall `fall` steps without ever allowing a
      replay if and only if `fall` is at most five. */
  lemma SafeFallIsExact(fall: int)
    ensures fall <= 5 <==>
            forall run :: AllInWindow(run) && FallsAtMost(run, fall) ==> NoReplay(run)
  {
    if fall <= SAFE_FALL {
      forall run | AllInWindow(run) && FallsAtMost(run, fall) ensures NoReplay(run) {
        assert FallsAtMost(run, SAFE_FALL);
        NoStepTwice(run);
      }
    } else {
      ReplayLedger(9);
      assert Replay()[..0] == [];
      assert Accepted(Replay(), 0) && Accepted(Replay(), 9);
      assert AllInWindow(Replay()) && FallsAtMost(Replay(), fall) && !NoReplay(Replay());
    }
  }
}
