/** The administrator's second factor: enrolment, code and recovery checks, and
    what any sequence of operations on the stored configuration can do. */
module TwoFactor {
  import opened Common
  import opened Text
  import Ledger

  const PERIOD_SECS: nat := 30
  const DIGITS: nat := 6
  const RECOVERY_CODE_LEN: nat := 10
  const RECOVERY_ALPHABET := "ABCDEFGHJKLMNPQRSTUVWXYZ23456789"

  type Secret = seq<byte>
  type Key = seq<byte>

  datatype Envelope = Envelope(enc: string, nonce: string, tag: string)

  /** The foreign primitives: authenticated encryption under a fresh nonce, the
      truncated HMAC of a counter, SHA-256 in hex, and Unicode upper-casing. */
  datatype Crypto = Crypto(
    seal: (Key, string, Secret) -> Envelope,
    open: (Key, Envelope) -> Option<Secret>,
    hotp: (Secret, nat) -> nat,
    sha256: string -> string,
    upper: char -> string)

  /** What was sealed opens again under the same key. */
  ghost predicate OpensSealed(c: Crypto) {
    forall k: Key, n: string, s: Secret :: c.open(k, c.seal(k, n, s)) == Some(s)
  }

  datatype Block = Block(enabled: bool, envelope: Envelope, recovery: seq<string>, usedSteps: seq<int>)

  datatype Config = Config(username: string, password: string, totp: Option<Block>)

  /** The stored state: the master key file and the administrator configuration. */
  datatype Store = Store(key: Option<Key>, config: Option<Config>)

  datatype State = Disabled | Pending | Enabled

  function StateOf(s: Store): State {
    if s.config.None? || s.config.value.totp.None? then Disabled
    else if s.config.value.totp.value.enabled then Enabled
    else Pending
  }

  // ---------------------------------------------------------------- codes

  function StepAt(time: nat): int {
    time / PERIOD_SECS
  }

  predicate CodeShapeOk(code: string) {
    |Trim(code)| == DIGITS && AllDigits(Trim(code))
  }

  function CodeFor(c: Crypto, secret: Secret, step: nat): string {
    Padded(c.hotp(secret, step) % 1_000_000, DIGITS)
  }

  predicate CodeMatches(c: Crypto, secret: Secret, code: string, step: int) {
    step >= 0 && CodeFor(c, secret, step) == Trim(code)
  }

  /** The first step of the window whose code it is. */
  function MatchingStep(c: Crypto, secret: Secret, code: string, time: nat): Option<int> {
    var step := StepAt(time);
    if !CodeShapeOk(code) then None
    else if CodeMatches(c, secret, code, step - 1) then Some(step - 1)
    else if CodeMatches(c, secret, code, step) then Some(step)
    else if CodeMatches(c, secret, code, step + 1) then Some(step + 1)
    else None
  }

  predicate IsBlankOrDash(ch: char) {
    IsWhitespace(ch) || ch == '-'
  }

  function NormalizeRecovery(c: Crypto, code: string): string {
    if code == [] then []
    else (if IsBlankOrDash(code[0]) then [] else c.upper(code[0])) + NormalizeRecovery(c, code[1..])
  }

  predicate RecoveryShapeOk(normalized: string) {
    |normalized| == RECOVERY_CODE_LEN && forall i :: 0 <= i < |normalized| ==> normalized[i] in RECOVERY_ALPHABET
  }

  function HashRecovery(c: Crypto, code: string): string {
    c.sha256(NormalizeRecovery(c, code))
  }

  /** All hashes but the first occurrence of the target. */
  function WithoutFirst(hashes: seq<string>, target: string): seq<string> {
    if hashes == [] then []
    else if hashes[0] == target then hashes[1..]
    else [hashes[0]] + WithoutFirst(hashes[1..], target)
  }

  // ---------------------------------------------------------------- operations

  datatype Factor = ByTotp | ByRecovery

  /** What an operation answered. */
  datatype Answer =
    | Refused                                  // an error
    | Began(secret: Secret)
    | Enrolled
    | Removed(wasPresent: bool)
    | Checked(factor: Option<Factor>)          // a verification, rejected when none
    | Saved

  datatype Op =
    | Begin(freshKey: Key, secret: Secret, nonce: string)
    | Enable(freshKey: Key, code: string, time: nat, codes: seq<string>)
    | Disable(code: string, time: nat)
    | Verify(code: string, time: nat)
    | AdminSet(request: AdminRequest)

  /** New credentials, with the outcome of the checks on them; an empty password keeps the old one. */
  datatype AdminRequest = AdminRequest(username: string, nameOk: bool, password: string, passwordOk: bool)

  /** The locked read-modify-write on an existing configuration. */
  function SetTotp(s: Store, totp: Option<Block>): Store
    requires s.config.Some?
  {
    s.(config := Some(s.config.value.(totp := totp)))
  }

  function WithKey(s: Store, freshKey: Key): Store {
    if s.key.Some? then s else s.(key := Some(freshKey))
  }

  function DoBegin(c: Crypto, s: Store, freshKey: Key, secret: Secret, nonce: string): (Store, Answer) {
    var t := WithKey(s, freshKey);
    if t.config.None? || StateOf(t) == Enabled then (t, Refused)
    else (SetTotp(t, Some(Block(false, c.seal(t.key.value, nonce, secret), [], []))), Began(secret))
  }

  function DoEnable(c: Crypto, s: Store, freshKey: Key, code: string, time: nat, codes: seq<string>): (Store, Answer) {
    var t := WithKey(s, freshKey);
    if StateOf(t) != Pending then (t, Refused)
    else
      var block := t.config.value.totp.value;
      var secret := c.open(t.key.value, block.envelope);
      if secret.None? || MatchingStep(c, secret.value, code, time).None? then (t, Refused)
      else
        var hashed := seq(|codes|, i requires 0 <= i < |codes| => HashRecovery(c, codes[i]));
        (SetTotp(t, Some(Block(true, block.envelope, hashed, []))), Enrolled)
  }

  /** Consuming a time-based code: an error, or whether it was accepted. */
  function ConsumeStep(c: Crypto, s: Store, key: Key, code: string, time: nat): (Store, Result<bool>) {
    if !CodeShapeOk(code) || StateOf(s) != Enabled then (s, Ok(false))
    else
      var block := s.config.value.totp.value;
      var secret := c.open(key, block.envelope);
      if secret.None? then (s, Err)
      else
        match MatchingStep(c, secret.value, code, time)
        case None => (s, Ok(false))
        case Some(step) =>
          var (ledger, isNew) := Ledger.Present(block.usedSteps, step);
          if isNew then (SetTotp(s, Some(block.(usedSteps := ledger))), Ok(true)) else (s, Ok(false))
  }

  function ConsumeRecovery(c: Crypto, s: Store, code: string): (Store, bool) {
    var normalized := NormalizeRecovery(c, code);
    if !RecoveryShapeOk(normalized) || StateOf(s) != Enabled then (s, false)
    else
      var block := s.config.value.totp.value;
      var target := HashRecovery(c, normalized);
      if target !in block.recovery then (s, false)
      else (SetTotp(s, Some(block.(recovery := WithoutFirst(block.recovery, target)))), true)
  }

  function DoVerify(c: Crypto, s: Store, code: string, time: nat): (Store, Answer) {
    if StateOf(s) != Enabled then (s, Checked(None))
    else if s.key.None? then (s, Refused)
    else
      var (t, used) := ConsumeStep(c, s, s.key.value, code, time);
      if used.Err? then (t, Refused)
      else if used.value then (t, Checked(Some(ByTotp)))
      else
        var (u, consumed) := ConsumeRecovery(c, t, code);
        (u, Checked(if consumed then Some(ByRecovery) else None))
  }

  function DoDisable(c: Crypto, s: Store, code: string, time: nat): (Store, Answer) {
    var (t, outcome) := if StateOf(s) == Enabled then DoVerify(c, s, code, time) else (s, Checked(Some(ByTotp)));
    if outcome.Refused? || (outcome.Checked? && outcome.factor.None?) || t.config.None? then (t, Refused)
    else (SetTotp(t, None), Removed(StateOf(t) != Disabled))
  }

  function DoAdminSet(s: Store, r: AdminRequest): (Store, Answer) {
    if r.password == [] then
      if s.config.None? || !r.nameOk then (s, Refused)
      else (s.(config := Some(s.config.value.(username := Trim(r.username)))), Saved)
    else if !r.nameOk || !r.passwordOk then (s, Refused)
    else
      var totp := if s.config.Some? then s.config.value.totp else None;
      (s.(config := Some(Config(Trim(r.username), r.password, totp))), Saved)
  }

  function Step(c: Crypto, s: Store, op: Op): (Store, Answer) {
    match op
    case Begin(k, secret, nonce) => DoBegin(c, s, k, secret, nonce)
    case Enable(k, code, time, codes) => DoEnable(c, s, k, code, time, codes)
    case Disable(code, time) => DoDisable(c, s, code, time)
    case Verify(code, time) => DoVerify(c, s, code, time)
    case AdminSet(request) => DoAdminSet(s, request)
  }

  /** The consuming loop: everything is kept except the first match. */
  method ConsumeHash(stored: seq<string>, target: string) returns (remaining: seq<string>, consumed: bool)
    ensures remaining == WithoutFirst(stored, target)
    ensures consumed <==> target in stored
  {
    remaining, consumed := [], false;
    for i := 0 to |stored|
      invariant consumed <==> target in stored[..i]
      invariant !consumed ==>
                  && remaining == stored[..i]
                  && WithoutFirst(stored, target) == stored[..i] + WithoutFirst(stored[i..], target)
      invariant consumed ==> WithoutFirst(stored, target) == remaining + stored[i..]
    {
      assert stored[i..] == [stored[i]] + stored[i + 1..];
      assert stored[..i + 1] == stored[..i] + [stored[i]];
      if !consumed && stored[i] == target {
        consumed := true;
      } else {
        remaining := remaining + [stored[i]];
      }
    }
    assert stored[..|stored|] == stored;
  }

  // ---------------------------------------------------------------- runs

  /** The state after a sequence of whole operations. */
  function RunOps(c: Crypto, s: Store, ops: seq<Op>): Store {
    if ops == [] then s
    else Step(c, RunOps(c, s, ops[..|ops| - 1]), ops[|ops| - 1]).0
  }

  /** The secret of the latest enrolment begun in the run. */
  function LatestSecret(c: Crypto, s: Store, ops: seq<Op>): Option<Secret> {
    if ops == [] then None
    else
      var n := |ops| - 1;
      match Step(c, RunOps(c, s, ops[..n]), ops[n]).1
      case Began(secret) => Some(secret)
      case _ => LatestSecret(c, s, ops[..n])
  }

  /** A block is only ever present with the key and the secret of the latest enrolment. */
  predicate SealsLatest(c: Crypto, s: Store, latest: Option<Secret>) {
    StateOf(s) != Disabled ==>
      && s.key.Some? && latest.Some?
      && c.open(s.key.value, s.config.value.totp.value.envelope) == latest
  }

  lemma {:induction false} RunSealsLatest(c: Crypto, s: Store, ops: seq<Op>)
    requires OpensSealed(c) && StateOf(s) == Disabled
    ensures SealsLatest(c, RunOps(c, s, ops), LatestSecret(c, s, ops))
  {
    if ops != [] {
      var n := |ops| - 1;
      RunSealsLatest(c, s, ops[..n]);
      hide MatchingStep, NormalizeRecovery, RecoveryShapeOk, HashRecovery, WithoutFirst, CodeShapeOk, RunOps,
        LatestSecret;
      StepSealsLatest(c, RunOps(c, s, ops[..n]), ops[n], LatestSecret(c, s, ops[..n]));
    }
  }

  lemma StepSealsLatest(c: Crypto, s: Store, op: Op, latest: Option<Secret>)
    requires OpensSealed(c) && SealsLatest(c, s, latest)
    ensures var (t, answer) := Step(c, s, op);
            SealsLatest(c, t, if answer.Began? then Some(answer.secret) else latest)
  {
    hide MatchingStep, NormalizeRecovery, RecoveryShapeOk, HashRecovery, WithoutFirst, CodeShapeOk;
  }

  // ---------------------------------------------------------------- what single operations can do

  /** Six digits, blanks around them aside, that are the secret's code for a half-minute within
      one of the clock's. */
  ghost predicate CodeIsCurrent(c: Crypto, secret: Secret, code: string, time: nat) {
    exists step: nat :: CodeIsFor(c, secret, Trim(code), step) && time / 30 - 1 <= step <= time / 30 + 1
  }

  /** The digits of the truncated HMAC of the step, section 5.3 of RFC 4226. */
  predicate CodeIsFor(c: Crypto, secret: Secret, digits: string, step: nat) {
    |digits| == 6 && AllDigits(digits) && NumberValue(digits) == c.hotp(secret, step) % 1_000_000
  }

  lemma {:induction false} SameDigits(a: string, b: string)
    requires |a| == |b| && AllDigits(a) && AllDigits(b) && NumberValue(a) == NumberValue(b)
    ensures a == b
  {
    if a != [] {
      var n := |a| - 1;
      assert a == a[..n] + [a[n]] && b == b[..n] + [b[n]];
      assert DigitValue(a[n]) < 10 && DigitValue(b[n]) < 10;
      SameDigits(a[..n], b[..n]);
    }
  }

  lemma MatchesWhenCodeIsFor(c: Crypto, secret: Secret, code: string, step: nat)
    requires CodeShapeOk(code)
    ensures CodeMatches(c, secret, code, step) <==> CodeIsFor(c, secret, Trim(code), step)
  {
    var n := c.hotp(secret, step) % 1_000_000;
    assert Pow10(6) == 1_000_000 by { assert Pow10(3) == 1000; }
    PaddedWidth(n, 6);
    PaddedValue(n, 6);
    if CodeIsFor(c, secret, Trim(code), step) {
      hide Padded, Trim;
      SameDigits(Padded(n, 6), Trim(code));
    }
  }

  lemma MatchingStepIsCurrent(c: Crypto, secret: Secret, code: string, time: nat)
    ensures var m := MatchingStep(c, secret, code, time);
            && (m.Some? <==> CodeIsCurrent(c, secret, code, time))
            && (m.Some? ==> m.value >= 0 && CodeIsFor(c, secret, Trim(code), m.value)
                            && time / 30 - 1 <= m.value <= time / 30 + 1)
  {
    var now := StepAt(time);
    if CodeShapeOk(code) {
      if now >= 1 { MatchesWhenCodeIsFor(c, secret, code, now - 1); }
      MatchesWhenCodeIsFor(c, secret, code, now);
      MatchesWhenCodeIsFor(c, secret, code, now + 1);
      var m := MatchingStep(c, secret, code, time);
      hide CodeIsFor, CodeShapeOk, Padded, Trim;
      if m.Some? {
        assert CodeIsFor(c, secret, Trim(code), m.value);
      } else {
        forall step: nat | now - 1 <= step <= now + 1 ensures !CodeIsFor(c, secret, Trim(code), step) {
          assert step == now - 1 || step == now || step == now + 1;
        }
      }
    } else {
      hide Trim;
    }
  }

  /** Over every sequence of operations from a state without a second factor: it becomes
      enabled only by an enrolment code of the secret of the latest `begin`. */
  lemma EnabledOnlyByEnrolment(c: Crypto, s: Store, ops: seq<Op>, op: Op)
    requires OpensSealed(c) && StateOf(s) == Disabled
    requires StateOf(RunOps(c, s, ops)) != Enabled && StateOf(RunOps(c, s, ops + [op])) == Enabled
    ensures op.Enable? && LatestSecret(c, s, ops).Some?
    ensures CodeIsCurrent(c, LatestSecret(c, s, ops).value, op.code, op.time)
  {
    RunSealsLatest(c, s, ops);
    assert (ops + [op])[..|ops|] == ops;
    var t := RunOps(c, s, ops);
    hide RunOps, LatestSecret, CodeShapeOk, NormalizeRecovery, RecoveryShapeOk, HashRecovery, WithoutFirst,
      CodeIsCurrent;
    assert op.Enable? by { hide MatchingStep; }
    MatchingStepIsCurrent(c, LatestSecret(c, s, ops).value, op.code, op.time);
    hide MatchingStep;
  }

  /** It stops being enabled only by a `disable` whose own check succeeded. */
  lemma DisabledOnlyByCheck(c: Crypto, s: Store, op: Op)
    requires StateOf(s) == Enabled && StateOf(Step(c, s, op).0) != Enabled
    ensures op.Disable? && StateOf(Step(c, s, op).0) == Disabled
    ensures DoVerify(c, s, op.code, op.time).1.Checked? && DoVerify(c, s, op.code, op.time).1.factor.Some?
  {
    hide MatchingStep, NormalizeRecovery, RecoveryShapeOk, HashRecovery, WithoutFirst, CodeShapeOk;
  }

  /** Changing the administrator's name or password never touches the second factor. */
  lemma PasswordChangeKeepsFactor(s: Store, r: AdminRequest)
    ensures var t := DoAdminSet(s, r).0;
            && StateOf(t) == StateOf(s) && t.key == s.key
            && (s.config.Some? ==> t.config.Some? && t.config.value.totp == s.config.value.totp)
  {}

  function RecoveryOf(s: Store): seq<string> {
    if StateOf(s) == Disabled then [] else s.config.value.totp.value.recovery
  }

  lemma {:induction false} WithoutFirstRemovesOne(hashes: seq<string>, target: string)
    requires target in hashes
    ensures multiset(hashes) == multiset(WithoutFirst(hashes, target)) + multiset{target}
    ensures |WithoutFirst(hashes, target)| == |hashes| - 1
  {
    assert hashes == [hashes[0]] + hashes[1..];
    if hashes[0] != target {
      WithoutFirstRemovesOne(hashes[1..], target);
    }
  }

  /** A recovery success uses up exactly one stored hash, that of the code presented;
      every other outcome of a check leaves the stored hashes alone. */
  lemma RecoveryUsesOne(c: Crypto, s: Store, code: string, time: nat)
    ensures var (t, answer) := DoVerify(c, s, code, time);
            if answer == Checked(Some(ByRecovery)) then
              multiset(RecoveryOf(s)) ==
              multiset(RecoveryOf(t)) + multiset{HashRecovery(c, NormalizeRecovery(c, code))}
            else RecoveryOf(t) == RecoveryOf(s)
  {
    hide MatchingStep, NormalizeRecovery, RecoveryShapeOk, HashRecovery, WithoutFirst, CodeShapeOk;
    var target := HashRecovery(c, NormalizeRecovery(c, code));
    if StateOf(s) == Enabled && target in RecoveryOf(s) {
      WithoutFirstRemovesOne(RecoveryOf(s), target);
    }
  }

  /** The number of recovery successes in a run of operations. */
  function RecoverySuccesses(c: Crypto, s: Store, ops: seq<Op>): nat {
    if ops == [] then 0
    else
      var n := |ops| - 1;
      RecoverySuccesses(c, s, ops[..n]) +
      if ops[n].Verify? && Step(c, RunOps(c, s, ops[..n]), ops[n]).1 == Checked(Some(ByRecovery)) then 1 else 0
  }

  predicate StaysEnabled(c: Crypto, s: Store, ops: seq<Op>) {
    StateOf(s) == Enabled &&
    (ops != [] ==> StaysEnabled(c, s, ops[..|ops| - 1]) && StateOf(RunOps(c, s, ops)) == Enabled)
  }

  /** While the factor stays enabled, codes left plus codes used is constant: no enrolment
      allows more recoveries than the codes it issued. */
  lemma {:induction false} RecoveryCodesConserved(c: Crypto, s: Store, ops: seq<Op>)
    requires StaysEnabled(c, s, ops)
    ensures |RecoveryOf(RunOps(c, s, ops))| + RecoverySuccesses(c, s, ops) == |RecoveryOf(s)|
  {
    if ops != [] {
      var n := |ops| - 1;
      RecoveryCodesConserved(c, s, ops[..n]);
      StepConserves(c, RunOps(c, s, ops[..n]), ops[n]);
      hide Step;
    }
  }

  lemma StepConserves(c: Crypto, s: Store, op: Op)
    requires StateOf(s) == Enabled && StateOf(Step(c, s, op).0) == Enabled
    ensures var (t, answer) := Step(c, s, op);
            |RecoveryOf(s)| == |RecoveryOf(t)| + if op.Verify? && answer == Checked(Some(ByRecovery)) then 1 else 0
  {
    if op.Verify? || op.Disable? {
      RecoveryUsesOne(c, s, op.code, op.time);
      var t := DoVerify(c, s, op.code, op.time).0;
      assert |multiset(RecoveryOf(s))| == |RecoveryOf(s)| && |multiset(RecoveryOf(t))| == |RecoveryOf(t)|;
    }
    hide DoVerify, MatchingStep;
  }

  // ---------------------------------------------------------------- no code step twice

  /** One verification. */
  datatype Check = Check(code: string, time: nat)

  /** The verifications among the operations. */
  function Checks(ops: seq<Op>): seq<Check> {
    if ops == [] then []
    else
      var n := |ops| - 1;
      Checks(ops[..n]) + (if ops[n].Verify? then [Check(ops[n].code, ops[n].time)] else [])
  }

  /** The checks as the ledger sees them. */
  function Attempts(c: Crypto, secret: Secret, checks: seq<Check>): (r: seq<Ledger.Attempt>)
    ensures |r| == |checks|
  {
    seq(|checks|, i requires 0 <= i < |checks| =>
      Ledger.Attempt(StepAt(checks[i].time), MatchingStep(c, secret, checks[i].code, checks[i].time)))
  }

  /** The time step the `i`-th operation was accepted for, if it was a verification accepted
      as a time-based code. */
  function AcceptedStep(c: Crypto, s: Store, ops: seq<Op>, i: nat): Option<int>
    requires i < |ops| && Ready(c, s)
  {
    if ops[i].Verify? && Step(c, RunOps(c, s, ops[..i]), ops[i]).1 == Checked(Some(ByTotp))
    then MatchingStep(c, SecretOf(c, s), ops[i].code, ops[i].time)
    else None
  }

  /** Enabled, with a secret that opens. */
  predicate Ready(c: Crypto, s: Store) {
    StateOf(s) == Enabled && s.key.Some? && c.open(s.key.value, s.config.value.totp.value.envelope).Some?
  }

  function SecretOf(c: Crypto, s: Store): Secret
    requires Ready(c, s)
  {
    c.open(s.key.value, s.config.value.totp.value.envelope).value
  }

  function StepsOf(s: Store): seq<int>
    requires StateOf(s) == Enabled
  {
    s.config.value.totp.value.usedSteps
  }

  /** Same key and envelope. */
  predicate SameSecret(s: Store, t: Store) {
    && StateOf(s) == Enabled && StateOf(t) == Enabled && t.key == s.key
    && t.config.value.totp.value.envelope == s.config.value.totp.value.envelope
  }

  /** A check leaves the key, the envelope and the enablement alone, and books matched steps. */
  lemma CheckBooks(c: Crypto, s: Store, code: string, time: nat)
    requires Ready(c, s)
    ensures var (t, answer) := DoVerify(c, s, code, time);
            var m := MatchingStep(c, SecretOf(c, s), code, time);
            && SameSecret(s, t)
            && StepsOf(t) == (if m.None? then StepsOf(s) else Ledger.Present(StepsOf(s), m.value).0)
            && (answer == Checked(Some(ByTotp)) <==> m.Some? && Ledger.Present(StepsOf(s), m.value).1)
  {
    hide CodeMatches, NormalizeRecovery, RecoveryShapeOk, HashRecovery, WithoutFirst, Ledger.WithStep;
  }

  /** Any other operation that leaves the factor enabled leaves its secret and its ledger alone. */
  lemma OthersKeepLedger(c: Crypto, s: Store, op: Op)
    requires Ready(c, s) && !op.Verify? && StateOf(Step(c, s, op).0) == Enabled
    ensures SameSecret(s, Step(c, s, op).0) && StepsOf(Step(c, s, op).0) == StepsOf(s)
  {
    hide MatchingStep, NormalizeRecovery, RecoveryShapeOk, HashRecovery, WithoutFirst, CodeShapeOk, Ledger.Present;
  }

  lemma {:induction false} OpsKeepLedger(c: Crypto, s: Store, ops: seq<Op>)
    requires Ready(c, s) && StepsOf(s) == [] && StaysEnabled(c, s, ops)
    ensures var t := RunOps(c, s, ops);
            && SameSecret(s, t) && Ready(c, t)
            && StepsOf(t) == Ledger.LedgerAfter(Attempts(c, SecretOf(c, s), Checks(ops)))
  {
    hide MatchingStep, DoVerify, Ledger.Present;
    if ops != [] {
      var n := |ops| - 1;
      var before := RunOps(c, s, ops[..n]);
      OpsKeepLedger(c, s, ops[..n]);
      var checks, front := Checks(ops), Checks(ops[..n]);
      if ops[n].Verify? {
        CheckBooks(c, before, ops[n].code, ops[n].time);
        assert Attempts(c, SecretOf(c, s), checks)[..|front|] == Attempts(c, SecretOf(c, s), front);
      } else {
        OthersKeepLedger(c, before, ops[n]);
        assert checks == front;
      }
    }
  }

  /** Where a verification stands among the checks. */
  lemma {:induction false} CheckAt(ops: seq<Op>, i: nat)
    requires i < |ops| && ops[i].Verify?
    ensures var k := |Checks(ops[..i])|;
            && k < |Checks(ops)| && Checks(ops)[k] == Check(ops[i].code, ops[i].time)
            && Checks(ops)[..k] == Checks(ops[..i])
    decreases |ops|
  {
    var n := |ops| - 1;
    if i < n {
      assert ops[..n][..i] == ops[..i];
      CheckAt(ops[..n], i);
    }
  }

  /** Every check is a verification among the operations, in the same order. */
  lemma {:induction false} CheckFrom(ops: seq<Op>, k: nat) returns (i: nat)
    requires k < |Checks(ops)|
    ensures i < |ops| && ops[i].Verify? && ops[i].time == Checks(ops)[k].time && |Checks(ops[..i])| == k
    decreases |ops|
  {
    var n := |ops| - 1;
    if k < |Checks(ops[..n])| {
      i := CheckFrom(ops[..n], k);
      assert ops[..n][..i] == ops[..i];
    } else {
      i := n;
    }
  }

  lemma {:induction false} ChecksGrow(ops: seq<Op>, i: nat, j: nat)
    requires i <= j <= |ops|
    ensures |Checks(ops[..i])| <= |Checks(ops[..j])|
    ensures i < j && ops[i].Verify? ==> |Checks(ops[..i])| < |Checks(ops[..j])|
    decreases j
  {
    if i < j {
      ChecksGrow(ops, i, j - 1);
      assert ops[..j][..j - 1] == ops[..j - 1];
    }
  }

  /** The clock of the verifications never falls more than five steps below its maximum. */
  predicate ClockFallsSafely(ops: seq<Op>) {
    forall a, b :: 0 <= a <= b < |ops| && ops[a].Verify? && ops[b].Verify? ==>
      StepAt(ops[b].time) >= StepAt(ops[a].time) - Ledger.SAFE_FALL
  }

  lemma ChecksFallSafely(c: Crypto, secret: Secret, ops: seq<Op>)
    requires ClockFallsSafely(ops)
    ensures Ledger.FallsAtMost(Attempts(c, secret, Checks(ops)), Ledger.SAFE_FALL)
  {
    hide MatchingStep, StepAt;
    var run := Attempts(c, secret, Checks(ops));
    forall k, l | 0 <= k <= l < |run| ensures run[l].clock >= run[k].clock - Ledger.SAFE_FALL {
      var i := CheckFrom(ops, k);
      var j := CheckFrom(ops, l);
      if j < i { ChecksGrow(ops, j, i); }
    }
  }

  /** While an enabled block with an empty ledger stays enabled: in any run of operations
      whose clock never falls more than five steps below its maximum, no time step is
      accepted twice, whatever else happens between. */
  lemma NoStepAcceptedTwice(c: Crypto, s: Store, ops: seq<Op>, i: nat, j: nat)
    requires Ready(c, s) && StepsOf(s) == [] && StaysEnabled(c, s, ops) && ClockFallsSafely(ops)
    requires i < j < |ops| && AcceptedStep(c, s, ops, i).Some? && AcceptedStep(c, s, ops, j).Some?
    ensures AcceptedStep(c, s, ops, i) != AcceptedStep(c, s, ops, j)
  {
    var run := Attempts(c, SecretOf(c, s), Checks(ops));
    AcceptedOnLedger(c, s, ops, i);
    AcceptedOnLedger(c, s, ops, j);
    ChecksGrow(ops, i, j);
    ChecksFallSafely(c, SecretOf(c, s), ops);
    hide RunOps, Step, StaysEnabled, AcceptedStep, Ready, ClockFallsSafely;
    forall k | 0 <= k < |run| ensures Ledger.InWindow(run[k]) {
      var check := Checks(ops)[k];
      MatchingStepIsCurrent(c, SecretOf(c, s), check.code, check.time);
    }
    hide MatchingStep, StepAt, Checks;
    Ledger.NoStepTwice(run);
  }

  lemma {:induction false} EnabledPrefix(c: Crypto, s: Store, ops: seq<Op>, i: nat)
    requires StaysEnabled(c, s, ops) && i <= |ops|
    ensures StaysEnabled(c, s, ops[..i])
    decreases |ops|
  {
    if i == |ops| {
      assert ops[..i] == ops;
    } else {
      var n := |ops| - 1;
      EnabledPrefix(c, s, ops[..n], i);
      assert ops[..n][..i] == ops[..i];
    }
  }

  lemma AcceptedOnLedger(c: Crypto, s: Store, ops: seq<Op>, i: nat)
    requires Ready(c, s) && StepsOf(s) == [] && StaysEnabled(c, s, ops)
    requires i < |ops| && AcceptedStep(c, s, ops, i).Some?
    ensures var run, k := Attempts(c, SecretOf(c, s), Checks(ops)), |Checks(ops[..i])|;
            ops[i].Verify? && k < |run| && Ledger.Accepted(run, k) && run[k].step == AcceptedStep(c, s, ops, i)
  {
    hide MatchingStep, DoVerify;
    var k := |Checks(ops[..i])|;
    EnabledPrefix(c, s, ops, i);
    OpsKeepLedger(c, s, ops[..i]);
    CheckBooks(c, RunOps(c, s, ops[..i]), ops[i].code, ops[i].time);
    CheckAt(ops, i);
    var run := Attempts(c, SecretOf(c, s), Checks(ops));
    assert run[..k] == Attempts(c, SecretOf(c, s), Checks(ops[..i]));
  }

  // ---------------------------------------------------------------- what is accepted

  /** An enrolment goes through: `begin` works unless the factor is enabled or there is no
      configuration, and the following `enable` takes exactly the current codes of the secret
      `begin` handed out. */
  lemma EnrolmentWorks(c: Crypto, s: Store, freshKey: Key, secret: Secret, nonce: string,
                       otherKey: Key, code: string, time: nat, codes: seq<string>)
    requires OpensSealed(c)
    ensures var (t, began) := DoBegin(c, s, freshKey, secret, nonce);
            && t.key == (if s.key.Some? then s.key else Some(freshKey))
            && began == (if s.config.None? || StateOf(s) == Enabled then Refused else Began(secret))
            && (began.Began? ==>
                  var (u, enabled) := DoEnable(c, t, otherKey, code, time, codes);
                  && StateOf(t) == Pending
                  && enabled == (if CodeIsCurrent(c, secret, code, time) then Enrolled else Refused)
                  && StateOf(u) == (if CodeIsCurrent(c, secret, code, time) then Enabled else Pending)
                  && u.key == t.key
                  && (enabled.Enrolled? ==> Ready(c, u) && SecretOf(c, u) == secret && StepsOf(u) == []))
  {
    MatchingStepIsCurrent(c, secret, code, time);
    hide MatchingStep, HashRecovery, CodeIsCurrent;
  }

  /** A time-based code is accepted exactly when it is current, as long as none of the steps it
      is a code for is booked. */
  lemma CurrentCodeIsAccepted(c: Crypto, s: Store, code: string, time: nat)
    requires Ready(c, s)
    requires forall step: nat :: CodeIsFor(c, SecretOf(c, s), Trim(code), step) ==> step !in StepsOf(s)
    ensures DoVerify(c, s, code, time).1 == Checked(Some(ByTotp)) <==> CodeIsCurrent(c, SecretOf(c, s), code, time)
  {
    MatchingStepIsCurrent(c, SecretOf(c, s), code, time);
    CheckBooks(c, s, code, time);
    hide DoVerify, MatchingStep, CodeIsCurrent, CodeIsFor;
  }

  /** Disabling goes through exactly with a configuration and, when enabled, a successful check;
      nothing but the factor changes then. */
  lemma DisableExactly(c: Crypto, s: Store, code: string, time: nat)
    ensures var (t, answer) := DoDisable(c, s, code, time);
            var check := DoVerify(c, s, code, time).1;
            && (answer.Removed? <==>
                  s.config.Some? && (StateOf(s) == Enabled ==> check.Checked? && check.factor.Some?))
            && (answer.Removed? ==>
                  && answer.wasPresent == (StateOf(s) != Disabled)
                  && StateOf(t) == Disabled && t.key == s.key && t.config.Some?
                  && t.config.value.username == s.config.value.username
                  && t.config.value.password == s.config.value.password)
            && (!answer.Removed? ==> answer == Refused && (s.config.Some? ==> StateOf(t) == StateOf(s)))
  {
    hide MatchingStep, NormalizeRecovery, RecoveryShapeOk, HashRecovery, WithoutFirst, CodeShapeOk;
  }

  /** A change of credentials goes through exactly when its checks do and, without a new
      password, there is a configuration to keep the old one from. */
  lemma CredentialsAreStored(s: Store, r: AdminRequest)
    ensures var (t, answer) := DoAdminSet(s, r);
            && (answer == Saved <==>
                  r.nameOk && if r.password == [] then s.config.Some? else r.passwordOk)
            && (answer == Saved ==>
                  && t.config.Some? && t.config.value.username == Trim(r.username)
                  && t.config.value.password == if r.password == [] then s.config.value.password else r.password)
            && (answer != Saved ==> answer == Refused && t == s)
  {}

  /** Once there is a key it stays, whatever happens. */
  lemma {:induction false} KeyIsKept(c: Crypto, s: Store, ops: seq<Op>)
    requires s.key.Some?
    ensures RunOps(c, s, ops).key == s.key
  {
    if ops != [] {
      KeyIsKept(c, s, ops[..|ops| - 1]);
      hide MatchingStep, NormalizeRecovery, RecoveryShapeOk, HashRecovery, WithoutFirst, CodeShapeOk;
    }
  }

  // -- recovery codes

  /** Ten capital letters and digits, none of them I, O, 0 or 1. */
  predicate IsRecoveryCode(code: string) {
    |code| == 10 && forall i :: 0 <= i < 10 ==>
      ('A' <= code[i] <= 'Z' && code[i] != 'I' && code[i] != 'O') || '2' <= code[i] <= '9'
  }

  /** Upper-casing leaves the characters of recovery codes alone. */
  ghost predicate UpperFixesCodes(c: Crypto) {
    forall ch: char :: 'A' <= ch <= 'Z' || '2' <= ch <= '9' ==> c.upper(ch) == [ch]
  }

  /** The text is the code in any letter case, with blanks and dashes anywhere. */
  predicate Spells(c: Crypto, text: string, code: string) {
    if text == [] then code == []
    else if IsWhitespace(text[0]) || text[0] == '-' then Spells(c, text[1..], code)
    else code != [] && c.upper(text[0]) == [code[0]] && Spells(c, text[1..], code[1..])
  }

  lemma {:induction false} SpelledIsNormal(c: Crypto, text: string, code: string)
    requires Spells(c, text, code)
    ensures NormalizeRecovery(c, text) == code
  {
    if text != [] {
      if IsBlankOrDash(text[0]) {
        SpelledIsNormal(c, text[1..], code);
      } else {
        SpelledIsNormal(c, text[1..], code[1..]);
        assert code == [code[0]] + code[1..];
      }
    }
  }

  lemma {:induction false} CodeSpellsItself(c: Crypto, code: string)
    requires UpperFixesCodes(c) && forall i :: 0 <= i < |code| ==> 'A' <= code[i] <= 'Z' || '2' <= code[i] <= '9'
    ensures Spells(c, code, code)
  {
    if code != [] { CodeSpellsItself(c, code[1..]); }
  }

  lemma CodeHasShape(code: string)
    requires IsRecoveryCode(code)
    ensures RecoveryShapeOk(code)
  {
    forall i | 0 <= i < |code| ensures code[i] in RECOVERY_ALPHABET { InAlphabet(code[i]); }
  }

  lemma InAlphabet(ch: char)
    requires ('A' <= ch <= 'Z' && ch != 'I' && ch != 'O') || '2' <= ch <= '9'
    ensures ch in RECOVERY_ALPHABET
  {
    var a, k := RECOVERY_ALPHABET, ch as int;
    assert ch <= '9' ==> a[24 + k - 50] == ch;
    assert 'A' <= ch < 'I' ==> a[k - 65] == ch;
    assert 'I' < ch < 'O' ==> a[k - 66] == ch;
    assert 'O' < ch ==> a[k - 67] == ch;
  }

  /** How many characters are neither blank nor dash. */
  function Solid(s: string): nat {
    if s == [] then 0 else Solid(s[..|s| - 1]) + if IsWhitespace(s[|s| - 1]) || s[|s| - 1] == '-' then 0 else 1
  }

  lemma {:induction false} SolidFirst(s: string)
    requires s != []
    ensures Solid(s) == (if IsWhitespace(s[0]) || s[0] == '-' then 0 else 1) + Solid(s[1..])
  {
    if |s| > 1 {
      SolidFirst(s[..|s| - 1]);
      assert s[1..][..|s| - 2] == s[..|s| - 1][1..];
    } else {
      assert s[..0] == [] && s[1..] == [];
    }
  }

  lemma {:induction false} SpelledSolid(c: Crypto, text: string, code: string)
    requires Spells(c, text, code)
    ensures Solid(text) == |code|
  {
    if text != [] {
      SolidFirst(text);
      if IsBlankOrDash(text[0]) { SpelledSolid(c, text[1..], code); } else { SpelledSolid(c, text[1..], code[1..]); }
    }
  }

  lemma {:induction false} SolidAtMost(s: string)
    ensures Solid(s) <= |s|
  {
    if s != [] { SolidAtMost(s[..|s| - 1]); }
  }

  lemma {:induction false} TrimmedEndSolid(s: string)
    ensures Solid(TrimEndBy(s, IsWhitespace)) == Solid(s)
  {
    if s != [] && IsWhitespace(s[|s| - 1]) { TrimmedEndSolid(s[..|s| - 1]); }
  }

  lemma {:induction false} TrimmedStartSolid(s: string)
    ensures Solid(TrimStartBy(s, IsWhitespace)) == Solid(s)
  {
    if s != [] && IsWhitespace(s[0]) {
      SolidFirst(s);
      TrimmedStartSolid(s[1..]);
    }
  }

  /** What spells a recovery code has more than six characters. */
  lemma SpelledIsNoShortCode(c: Crypto, text: string, code: string)
    requires Spells(c, text, code) && IsRecoveryCode(code)
    ensures !CodeShapeOk(text)
  {
    SpelledSolid(c, text, code);
    TrimmedStartSolid(text);
    TrimmedEndSolid(TrimStartBy(text, IsWhitespace));
    SolidAtMost(Trim(text));
    hide Solid, Spells;
  }

  /** The hashes spent by the recovery successes of a run. */
  function Spent(c: Crypto, s: Store, ops: seq<Op>): multiset<string> {
    if ops == [] then multiset{}
    else
      var n := |ops| - 1;
      Spent(c, s, ops[..n]) +
      if ops[n].Verify? && Step(c, RunOps(c, s, ops[..n]), ops[n]).1 == Checked(Some(ByRecovery))
      then multiset{HashRecovery(c, NormalizeRecovery(c, ops[n].code))} else multiset{}
  }

  /** While the factor stays enabled, the stored hashes and the spent ones are those it began with. */
  lemma {:induction false} HashesConserved(c: Crypto, s: Store, ops: seq<Op>)
    requires StaysEnabled(c, s, ops)
    ensures multiset(RecoveryOf(RunOps(c, s, ops))) + Spent(c, s, ops) == multiset(RecoveryOf(s))
  {
    if ops != [] {
      var n := |ops| - 1;
      HashesConserved(c, s, ops[..n]);
      StepSpends(c, RunOps(c, s, ops[..n]), ops[n]);
      hide Step, HashRecovery, NormalizeRecovery, RecoveryOf;
    }
  }

  lemma StepSpends(c: Crypto, s: Store, op: Op)
    requires StateOf(s) == Enabled && StateOf(Step(c, s, op).0) == Enabled
    ensures var (t, answer) := Step(c, s, op);
            multiset(RecoveryOf(s)) == multiset(RecoveryOf(t)) +
              if op.Verify? && answer == Checked(Some(ByRecovery))
              then multiset{HashRecovery(c, NormalizeRecovery(c, op.code))} else multiset{}
  {
    if op.Verify? || op.Disable? { RecoveryUsesOne(c, s, op.code, op.time); }
    hide DoVerify, MatchingStep, HashRecovery, NormalizeRecovery;
  }

  /** How many of the issued codes have this hash. */
  function Issued(c: Crypto, codes: seq<string>, hash: string): nat {
    multiset(seq(|codes|, i requires 0 <= i < |codes| => c.sha256(codes[i])))[hash]
  }

  /** An enabled store with the hash left accepts whatever spells the code. */
  lemma SpelledIsAccepted(c: Crypto, s: Store, text: string, code: string, time: nat)
    requires UpperFixesCodes(c) && IsRecoveryCode(code) && Spells(c, text, code)
    requires StateOf(s) == Enabled && s.key.Some? && c.sha256(code) in RecoveryOf(s)
    ensures DoVerify(c, s, text, time).1 == Checked(Some(ByRecovery))
  {
    SpelledIsNoShortCode(c, text, code);
    SpelledIsNormal(c, text, code);
    CodeSpellsItself(c, code);
    SpelledIsNormal(c, code, code);
    CodeHasShape(code);
    hide CodeShapeOk, NormalizeRecovery, RecoveryShapeOk, WithoutFirst, Spells, IsRecoveryCode, MatchingStep, Trim;
    assert ConsumeRecovery(c, s, text).1;
    assert ConsumeStep(c, s, s.key.value, text, time) == (s, Ok(false));
    hide ConsumeRecovery, ConsumeStep;
  }

  lemma IssuedAreStored(c: Crypto, s: Store, freshKey: Key, code: string, time: nat, codes: seq<string>)
    requires UpperFixesCodes(c) && (forall i :: 0 <= i < |codes| ==> IsRecoveryCode(codes[i]))
    requires DoEnable(c, s, freshKey, code, time, codes).1 == Enrolled
    ensures var t := DoEnable(c, s, freshKey, code, time, codes).0;
            && StateOf(t) == Enabled && t.key.Some?
            && RecoveryOf(t) == seq(|codes|, i requires 0 <= i < |codes| => c.sha256(codes[i]))
  {
    forall i | 0 <= i < |codes| ensures HashRecovery(c, codes[i]) == c.sha256(codes[i]) {
      CodeSpellsItself(c, codes[i]);
      SpelledIsNormal(c, codes[i], codes[i]);
    }
    hide MatchingStep, NormalizeRecovery, HashRecovery, IsRecoveryCode;
  }

  /** Every recovery code that an enrolment issued is accepted, in any letter case and with
      blanks and dashes anywhere, after any run of operations that keeps the factor enabled and
      has used up fewer codes of its hash than were issued. */
  lemma IssuedCodeIsAccepted(c: Crypto, s: Store, freshKey: Key, code: string, time: nat, codes: seq<string>,
                             ops: seq<Op>, i: nat, text: string, later: nat)
    requires UpperFixesCodes(c) && (forall i :: 0 <= i < |codes| ==> IsRecoveryCode(codes[i]))
    requires DoEnable(c, s, freshKey, code, time, codes).1 == Enrolled
    requires StaysEnabled(c, DoEnable(c, s, freshKey, code, time, codes).0, ops)
    requires i < |codes| && Spells(c, text, codes[i])
    requires Spent(c, DoEnable(c, s, freshKey, code, time, codes).0, ops)[c.sha256(codes[i])]
             < Issued(c, codes, c.sha256(codes[i]))
    ensures var t := RunOps(c, DoEnable(c, s, freshKey, code, time, codes).0, ops);
            DoVerify(c, t, text, later).1 == Checked(Some(ByRecovery))
  {
    var enabled := DoEnable(c, s, freshKey, code, time, codes).0;
    var t := RunOps(c, enabled, ops);
    IssuedAreStored(c, s, freshKey, code, time, codes);
    assert StateOf(t) == Enabled;
    hide DoEnable, DoVerify, Spells, IsRecoveryCode, StaysEnabled, RunOps, Spent;
    KeyIsKept(c, enabled, ops);
    HashesConserved(c, enabled, ops);
    assert c.sha256(codes[i]) in multiset(RecoveryOf(t));
    SpelledIsAccepted(c, t, text, codes[i], later);
  }

  /** The code itself is one way to spell it. */
  lemma PlainCodeIsSpelled(c: Crypto, code: string)
    requires UpperFixesCodes(c) && IsRecoveryCode(code)
    ensures Spells(c, code, code)
  {
    CodeSpellsItself(c, code);
  }
}
