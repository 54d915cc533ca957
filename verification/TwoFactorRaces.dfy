/** Disabling the second factor while other processes act: `disable` reads the state, checks a
    code in locked steps, and removes the block in a last one. */
module TwoFactorRaces {
  import opened Common
  import opened TwoFactor

  type Process = nat

  /** A process inside `disable`. The number is the enrolment current when it read the state
      or when its check succeeded; no step depends on it. */
  datatype Phase =
    | Free
    | Unchecked(enrolment: nat)                        // the factor was not enabled
    | Checking(code: string, time: nat)                // about to read the state again, and the key
    | Presenting(key: Key, code: string, time: nat)    // about to present the code as a time-based one
    | Recovering(code: string)                         // about to present it as a recovery code
    | Approved(enrolment: nat)                         // the check succeeded

  /** The stored files, how many enrolments were completed, and the processes. */
  datatype System = System(store: Store, enrolments: nat, phases: map<Process, Phase>)

  function PhaseOf(s: System, p: Process): Phase {
    if p in s.phases then s.phases[p] else Free
  }

  function Goto(s: System, p: Process, phase: Phase): System {
    s.(phases := s.phases[p := phase])
  }

  /** Locked steps of any processes. */
  datatype Event =
    | Start(p: Process, code: string, time: nat)       // `disable` reads the state
    | Advance(p: Process)                              // its next locked step
    | Other(op: Op)                                    // another whole operation
    | Present(key: Key, code: string, time: nat)       // a verification's first locked step
    | Recover(code: string)                            // a verification's second locked step

  /** The first locked step of a check: booking a time step. */
  function PresentStep(c: Crypto, s: System, p: Process, key: Key, code: string, time: nat): System {
    var (t, used) := ConsumeStep(c, s.store, key, code, time);
    if used.Err? then Goto(s, p, Free)
    else if used.value then Goto(s.(store := t), p, Approved(s.enrolments))
    else Goto(s, p, Recovering(code))
  }

  function AdvanceStep(c: Crypto, s: System, p: Process): System {
    match PhaseOf(s, p)
    case Free => s
    case Checking(code, time) =>
      if StateOf(s.store) != Enabled || s.store.key.None? then Goto(s, p, Free)
      else Goto(s, p, Presenting(s.store.key.value, code, time))
    case Presenting(key, code, time) => PresentStep(c, s, p, key, code, time)
    case Recovering(code) =>
      var (t, consumed) := ConsumeRecovery(c, s.store, code);
      Goto(s.(store := t), p, if consumed then Approved(s.enrolments) else Free)
    case Unchecked(_) | Approved(_) =>
      Goto(if s.store.config.None? then s else s.(store := SetTotp(s.store, None)), p, Free)
  }

  /** An enabling that succeeds is the next enrolment. */
  function OtherStep(c: Crypto, s: System, op: Op): System {
    var (t, answer) := Step(c, s.store, op);
    s.(store := t, enrolments := if answer.Enrolled? then s.enrolments + 1 else s.enrolments)
  }

  function Next(c: Crypto, s: System, e: Event): System {
    match e
    case Start(p, code, time) =>
      if !PhaseOf(s, p).Free? then s
      else if StateOf(s.store) == Enabled then Goto(s, p, Checking(code, time))
      else Goto(s, p, Unchecked(s.enrolments))
    case Advance(p) => AdvanceStep(c, s, p)
    case Other(op) => if op.Disable? then s else OtherStep(c, s, op)
    case Present(key, code, time) => s.(store := ConsumeStep(c, s.store, key, code, time).0)
    case Recover(code) => s.(store := ConsumeRecovery(c, s.store, code).0)
  }

  function Run(c: Crypto, store: Store, events: seq<Event>): System {
    if events == [] then System(store, 0, map[])
    else Next(c, Run(c, store, events[..|events| - 1]), events[|events| - 1])
  }

  // ---------------------------------------------------------------- what a process may rely on

  /** An unchecked `disable` saw an enrolment that is gone by the time another is enabled. */
  predicate PhaseOk(s: System, phase: Phase) {
    match phase
    case Unchecked(n) => n <= s.enrolments && (StateOf(s.store) == Enabled ==> n < s.enrolments)
    case Approved(n) => n <= s.enrolments
    case _ => true
  }

  predicate AllOk(s: System) {
    forall p :: p in s.phases ==> PhaseOk(s, s.phases[p])
  }

  /** A step that adds no enrolment enables nothing. */
  predicate Quiet(s: System, t: System) {
    && t.enrolments >= s.enrolments
    && (StateOf(t.store) == Enabled && StateOf(s.store) != Enabled ==> t.enrolments > s.enrolments)
  }

  lemma QuietKeeps(s: System, t: System, phase: Phase)
    requires PhaseOk(s, phase) && Quiet(s, t)
    ensures PhaseOk(t, phase)
  {
    hide StateOf;
  }

  lemma NextIsQuiet(c: Crypto, s: System, e: Event)
    ensures Quiet(s, Next(c, s, e))
  {
    hide MatchingStep, NormalizeRecovery, RecoveryShapeOk, HashRecovery, WithoutFirst, CodeShapeOk;
  }

  /** The step changes the phase of at most one process, to one that is in order. */
  lemma NextPhases(c: Crypto, s: System, e: Event)
    ensures var t := Next(c, s, e);
            forall p :: p in t.phases ==> (p in s.phases && t.phases[p] == s.phases[p]) || PhaseOk(t, t.phases[p])
  {
    hide ConsumeStep, ConsumeRecovery, Step, StateOf, AdvanceStep;
    if e.Advance? {
      AdvancePhase(c, s, e.p);
    }
  }

  lemma AdvancePhase(c: Crypto, s: System, p: Process)
    ensures var t := AdvanceStep(c, s, p);
            t == s || (PhaseOk(t, PhaseOf(t, p)) && t.phases == s.phases[p := PhaseOf(t, p)])
  {
    hide ConsumeStep, ConsumeRecovery, StateOf;
  }

  lemma {:induction false} RunIsOk(c: Crypto, store: Store, events: seq<Event>)
    ensures AllOk(Run(c, store, events))
  {
    if events != [] {
      var n := |events| - 1;
      var s := Run(c, store, events[..n]);
      RunIsOk(c, store, events[..n]);
      NextIsQuiet(c, s, events[n]);
      NextPhases(c, s, events[n]);
      hide Next, Quiet, PhaseOk;
      var t := Run(c, store, events);
      forall p | p in t.phases ensures PhaseOk(t, t.phases[p]) {
        if p in s.phases && t.phases[p] == s.phases[p] { QuietKeeps(s, t, s.phases[p]); }
      }
    }
  }

  /** In every interleaving, the factor stops being enabled only by the last step of a
      `disable`; that one checked a code against the very enrolment it removes, unless
      an enrolment was completed since it read the state or since its check. */
  lemma RemovalIsCheckedUnlessRaced(c: Crypto, store: Store, events: seq<Event>, e: Event)
    requires StateOf(Run(c, store, events).store) == Enabled
    requires StateOf(Next(c, Run(c, store, events), e).store) != Enabled
    ensures e.Advance?
    ensures var s := Run(c, store, events);
            var phase := PhaseOf(s, e.p);
            phase == Approved(s.enrolments)
            || ((phase.Approved? || phase.Unchecked?) && phase.enrolment < s.enrolments)
  {
    RunIsOk(c, store, events);
    var s := Run(c, store, events);
    OnlyRemovalLeaves(c, s, e);
    hide Run, Next, StateOf;
    if e.Advance? { assert e.p in s.phases; }
  }

  lemma OnlyRemovalLeaves(c: Crypto, s: System, e: Event)
    requires StateOf(s.store) == Enabled && StateOf(Next(c, s, e).store) != Enabled
    ensures e.Advance? && (PhaseOf(s, e.p).Approved? || PhaseOf(s, e.p).Unchecked?)
  {
    hide MatchingStep, NormalizeRecovery, RecoveryShapeOk, HashRecovery, WithoutFirst, CodeShapeOk;
    if e.Other? && !e.op.Disable? {
      var op := e.op;
      if StateOf(Step(c, s.store, op).0) != Enabled { DisabledOnlyByCheck(c, s.store, op); }
    }
  }

  /** A success is a check against the enrolment of that moment. */
  lemma ApprovedByCheck(c: Crypto, s: System, e: Event, p: Process)
    requires !PhaseOf(s, p).Approved? && PhaseOf(Next(c, s, e), p).Approved?
    ensures e == Advance(p) && PhaseOf(Next(c, s, e), p) == Approved(s.enrolments) && StateOf(s.store) == Enabled
    ensures var phase := PhaseOf(s, p);
            || (phase.Presenting? && ConsumeStep(c, s.store, phase.key, phase.code, phase.time).1 == Ok(true))
            || (phase.Recovering? && ConsumeRecovery(c, s.store, phase.code).1)
  {
    hide MatchingStep, NormalizeRecovery, RecoveryShapeOk, HashRecovery, WithoutFirst, CodeShapeOk, Step;
  }

  /** The race is real: a `disable` that read a pending enrolment removes it after another
      process has completed it, with no check at all. */
  lemma EnrolmentRemovedUnchecked(c: Crypto, store: Store, enabling: Op, p: Process, code: string, time: nat)
    requires StateOf(store) == Pending && enabling.Enable? && Step(c, store, enabling).1 == Enrolled
    ensures var events := [Start(p, code, time), Other(enabling), Advance(p)];
            && StateOf(Run(c, store, events[..2]).store) == Enabled
            && StateOf(Run(c, store, events).store) == Disabled
            && PhaseOf(Run(c, store, events[..2]), p) == Unchecked(0)
  {
    hide MatchingStep, HashRecovery;
    var events := [Start(p, code, time), Other(enabling), Advance(p)];
    assert events[..2][..1] == events[..1] && events[..1][..0] == [];
    assert Run(c, store, events[..1]) == System(store, 0, map[p := Unchecked(0)]);
  }
}
