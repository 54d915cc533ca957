/** The stored administrator configuration and master key, changed in place by the
    two-factor operations. */
module AdminFiles {
  import opened Common
  import opened Text
  import opened TwoFactor

  class Files {
    const crypto: Crypto
    var key: Option<Key>
    var config: Option<Config>

    constructor (crypto: Crypto, key: Option<Key>, config: Option<Config>)
      ensures this.crypto == crypto && Contents() == Store(key, config)
    {
      this.crypto := crypto;
      this.key := key;
      this.config := config;
    }

    function Contents(): Store
      reads this
    {
      Store(key, config)
    }

    method LoadOrCreateKey(freshKey: Key) returns (k: Key)
      modifies this`key
      ensures key == Some(k) && Contents() == WithKey(old(Contents()), freshKey)
    {
      if key.None? {
        key := Some(freshKey);
      }
      k := key.value;
    }

    /** Starts an enrolment; the key exists and the secret is sealed before the state is looked at. */
    method Begin(freshKey: Key, secret: Secret, nonce: string) returns (a: Answer)
      modifies this
      ensures (Contents(), a) == DoBegin(crypto, old(Contents()), freshKey, secret, nonce)
    {
      var k := LoadOrCreateKey(freshKey);
      var envelope := crypto.seal(k, nonce, secret);
      if config.None? {
        return Refused;
      }
      var current := config.value;
      if current.totp.Some? && current.totp.value.enabled {
        return Refused;
      }
      config := Some(current.(totp := Some(Block(false, envelope, [], []))));
      a := Began(secret);
    }

    /** Completes an enrolment; the recovery codes are hashed before anything is checked. */
    method Enable(freshKey: Key, code: string, time: nat, codes: seq<string>) returns (a: Answer)
      modifies this
      ensures (Contents(), a) == DoEnable(crypto, old(Contents()), freshKey, code, time, codes)
    {
      hide MatchingStep, HashRecovery;
      var k := LoadOrCreateKey(freshKey);
      var hashed: seq<string> := [];
      for i := 0 to |codes|
        invariant |hashed| == i && forall j :: 0 <= j < i ==> hashed[j] == HashRecovery(crypto, codes[j])
        invariant Contents() == WithKey(old(Contents()), freshKey) && key == Some(k)
      {
        hashed := hashed + [HashRecovery(crypto, codes[i])];
      }
      if config.None? || config.value.totp.None? {
        return Refused;
      }
      var block := config.value.totp.value;
      if block.enabled {
        return Refused;
      }
      var secret := crypto.open(k, block.envelope);
      if secret.None? {
        return Refused;
      }
      var step := MatchingStep(crypto, secret.value, code, time);
      if step.None? {
        return Refused;
      }
      assert hashed == seq(|codes|, i requires 0 <= i < |codes| => HashRecovery(crypto, codes[i]));
      config := Some(config.value.(totp := Some(Block(true, block.envelope, hashed, []))));
      a := Enrolled;
    }

    method ConsumeTotpStep(k: Key, code: string, time: nat) returns (used: Result<bool>)
      modifies this`config
      ensures (Contents(), used) == ConsumeStep(crypto, old(Contents()), k, code, time)
    {
      hide MatchingStep, CodeShapeOk, Ledger.WithStep;
      if !CodeShapeOk(code) {
        return Ok(false);
      }
      if config.None? || config.value.totp.None? || !config.value.totp.value.enabled {
        return Ok(false);
      }
      var block := config.value.totp.value;
      var secret := crypto.open(k, block.envelope);
      if secret.None? {
        return Err;
      }
      var step := MatchingStep(crypto, secret.value, code, time);
      if step.None? || step.value in block.usedSteps {
        return Ok(false);
      }
      config := Some(config.value.(totp := Some(block.(usedSteps := Ledger.WithStep(block.usedSteps, step.value)))));
      used := Ok(true);
    }

    method ConsumeRecoveryCode(code: string) returns (consumed: bool)
      modifies this`config
      ensures (Contents(), consumed) == ConsumeRecovery(crypto, old(Contents()), code)
    {
      hide NormalizeRecovery, RecoveryShapeOk, HashRecovery, WithoutFirst;
      var normalized := NormalizeRecovery(crypto, code);
      if !RecoveryShapeOk(normalized) {
        return false;
      }
      var target := HashRecovery(crypto, normalized);
      if config.None? || config.value.totp.None? || !config.value.totp.value.enabled {
        return false;
      }
      var block := config.value.totp.value;
      var remaining, found := ConsumeHash(block.recovery, target);
      if !found {
        return false;
      }
      config := Some(config.value.(totp := Some(block.(recovery := remaining))));
      consumed := true;
    }

    /** Checks a code: first as a time-based code, then as a recovery code. */
    method Verify(code: string, time: nat) returns (a: Answer)
      modifies this`config
      ensures (Contents(), a) == DoVerify(crypto, old(Contents()), code, time)
    {
      hide ConsumeStep, ConsumeRecovery;
      if config.None? || config.value.totp.None? || !config.value.totp.value.enabled {
        return Checked(None);
      }
      if key.None? {
        return Refused;
      }
      var used := ConsumeTotpStep(key.value, code, time);
      if used.Err? {
        return Refused;
      }
      if used.value {
        return Checked(Some(ByTotp));
      }
      var consumed := ConsumeRecoveryCode(code);
      a := Checked(if consumed then Some(ByRecovery) else None);
    }

    method Disable(code: string, time: nat) returns (a: Answer)
      modifies this`config
      ensures (Contents(), a) == DoDisable(crypto, old(Contents()), code, time)
    {
      hide DoVerify;
      if config.Some? && config.value.totp.Some? && config.value.totp.value.enabled {
        var outcome := Verify(code, time);
        if outcome.Refused? || (outcome.Checked? && outcome.factor.None?) {
          return Refused;
        }
      }
      if config.None? {
        return Refused;
      }
      var wasPresent := config.value.totp.Some?;
      config := Some(config.value.(totp := None));
      a := Removed(wasPresent);
    }

    method AdminSet(r: AdminRequest) returns (a: Answer)
      modifies this`config
      ensures (Contents(), a) == DoAdminSet(old(Contents()), r)
    {
      var name := Trim(r.username);
      if r.password == [] {
        if config.None? || !r.nameOk {
          return Refused;
        }
        config := Some(config.value.(username := name));
        return Saved;
      }
      if !r.nameOk || !r.passwordOk {
        return Refused;
      }
      config := Some(Config(name, r.password, if config.Some? then config.value.totp else None));
      a := Saved;
    }
  }
}
