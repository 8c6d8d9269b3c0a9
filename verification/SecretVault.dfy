/** The vault's operations on one replica: Put, the two reads, and destroying a version. */
module SecretVault {
  import opened Common
  import opened Envelope
  import opened SecretVersions

  datatype VaultError = NotFound | CertificateSecret | SecretDisabled | NoSuchVersion | VersionDestroyed
      | ReadBackFailed | OpenFailed(error: OpenError) | OpenPanic

  /** Why a secret's payload cannot be written or read at all. */
  function Refusal(s: State, secret: nat): Option<VaultError> {
    if secret !in s.secrets then Some(NotFound)
    else if s.secrets[secret].certificate then Some(CertificateSecret)
    else if s.secrets[secret].disabled then Some(SecretDisabled)
    else None
  }

  /** A secret must exist, hold a payload of its own, and be enabled. */
  lemma RefusalExact(s: State, secret: nat)
    ensures var r := Refusal(s, secret);
            && (r == Some(NotFound) <==> secret !in s.secrets)
            && (r == Some(CertificateSecret) <==> secret in s.secrets && s.secrets[secret].certificate)
            && (r == Some(SecretDisabled) <==>
                  secret in s.secrets && !s.secrets[secret].certificate && s.secrets[secret].disabled)
            && (r == None <==> Usable(s, secret))
  {
  }

  /** Disabling a secret that is not being written refuses it from then on; enabling it gives all of it back. */
  lemma DisablingRefuses(c: Crypto, s: State, secret: nat, other: nat)
    requires Enabled(s, SetDisabled(secret, true)) && !s.secrets[secret].certificate && other != secret
    ensures var off := Apply(c, s, SetDisabled(secret, true));
            && Refusal(off, secret) == Some(SecretDisabled) && Refusal(off, other) == Refusal(s, other)
            && Enabled(off, SetDisabled(secret, false))
            && var on := Apply(c, off, SetDisabled(secret, false));
               && Refusal(on, secret) == None && on.rows == s.rows
               && on.secrets[secret].current == s.secrets[secret].current
  {
    assert Apply(c, s, SetDisabled(secret, true)).txs == s.txs;
  }

  ghost predicate Usable(s: State, secret: nat) {
    secret in s.secrets && !s.secrets[secret].certificate && !s.secrets[secret].disabled
  }

  /** `version` is the newest one not destroyed. */
  ghost predicate Newest(s: State, secret: nat, version: nat) {
    && (secret, version) in s.rows && !s.rows[(secret, version)].destroyed
    && forall v: nat :: version < v && (secret, v) in s.rows ==> s.rows[(secret, v)].destroyed
  }

  class Vault {
    const crypto: Crypto
    var state: State

    constructor (c: Crypto)
      requires Ideal(c)
      ensures crypto == c && state == EMPTY && Valid()
    {
      crypto := c;
      state := EMPTY;
    }

    ghost predicate Valid()
      reads this
    {
      Ideal(crypto) && Invariant(crypto, state) && state.txs == map[]
    }

    method Create(secret: nat, certificate: bool) returns (ok: bool)
      requires Valid()
      modifies this
      ensures Valid() && ok == (secret !in old(state).secrets)
      ensures state == if ok then Apply(crypto, old(state), CreateSecret(secret, certificate)) else old(state)
      ensures ok ==> state == old(state).(secrets := old(state).secrets[secret := Secret(0, certificate, false)])
    {
      if secret in state.secrets {
        return false;
      }
      StepKeepsInvariant(crypto, state, CreateSecret(secret, certificate));
      state := state.(secrets := state.secrets[secret := Secret(0, certificate, false)]);
      return true;
    }

    /**
     * The version is the next number, and its row holds the value sealed to that very number. Reading the
     * committed row back can fail; then the caller is told of an error, and the version is there.
     */
    method Put(secret: nat, value: Bytes, entropy: Entropy, readBack: bool) returns (r: Result<nat, VaultError>)
      requires Valid() && GoodEntropy(entropy)
      modifies this
      ensures Valid()
      ensures Refusal(old(state), secret).Some? ==> r == Err(Refusal(old(state), secret).value) && state == old(state)
      ensures r == Err(NotFound) <==> secret !in old(state).secrets
      ensures r == Err(CertificateSecret) <==> secret in old(state).secrets && old(state).secrets[secret].certificate
      ensures r == Err(SecretDisabled) <==>
                && secret in old(state).secrets && !old(state).secrets[secret].certificate
                && old(state).secrets[secret].disabled
      ensures Usable(old(state), secret) ==>
                var next := old(state).secrets[secret].current + 1;
                && r == (if readBack then Ok(next) else Err(ReadBackFailed))
                && (secret, next) !in old(state).rows
                && state.secrets == old(state).secrets[secret := old(state).secrets[secret].(current := next)]
                && state.rows == old(state).rows[(secret, next) :=
                     Row(Sealed(crypto, entropy, value, Aad(secret, next)), false, value, entropy)]
    {
      hide Invariant, Ideal, Sealed, GoodEntropy, Aad;
      if secret !in state.secrets {
        return Err(NotFound);
      }
      if state.secrets[secret].certificate {
        return Err(CertificateSecret);
      }
      if state.secrets[secret].disabled {
        return Err(SecretDisabled);
      }
      ghost var before := state;
      StepKeepsInvariant(crypto, state, Reserve(0, secret, value));
      var next := state.secrets[secret].current + 1;
      state := Apply(crypto, state, Reserve(0, secret, value));
      StepKeepsInvariant(crypto, state, Encrypt(0, entropy));
      var envelope := Seal(crypto, entropy, value, Aad(secret, next));
      state := state.(txs := state.txs[0 := Tx(secret, next, value, Encrypted(envelope, entropy))]);
      InsertNeverConflicts(crypto, state, 0);
      StepKeepsInvariant(crypto, state, SecretVersions.Insert(0));
      FreshNumber(crypto, before, secret);
      state := Apply(crypto, state, SecretVersions.Insert(0));
      StepKeepsInvariant(crypto, state, Commit(0));
      state := Apply(crypto, state, Commit(0));
      if !readBack {
        return Err(ReadBackFailed);
      }
      return Ok(next);
    }

    /** Opens a stored row; the invariant leaves no way for this to fail. */
    method OpenStored(secret: nat, version: nat) returns (r: Result<Bytes, VaultError>)
      requires Valid() && (secret, version) in state.rows
      ensures var row := state.rows[(secret, version)];
              r == if row.destroyed then Err(VersionDestroyed) else Ok(row.value)
    {
      var row := state.rows[(secret, version)];
      if row.destroyed {
        return Err(VersionDestroyed);
      }
      RowOpens(crypto, state, secret, version);
      var out := Open(crypto, row.payload, Aad(secret, version));
      match out {
        case Done(value) => return Ok(value);
        case Failed(e) => return Err(OpenFailed(e));
        case Panic => return Err(OpenPanic);
      }
    }

    method GetVersion(secret: nat, version: nat) returns (r: Result<Bytes, VaultError>)
      requires Valid()
      ensures Refusal(state, secret).Some? ==> r == Err(Refusal(state, secret).value)
      ensures r == Err(NotFound) <==> secret !in state.secrets
      ensures r == Err(CertificateSecret) <==> secret in state.secrets && state.secrets[secret].certificate
      ensures r == Err(SecretDisabled) <==>
                secret in state.secrets && !state.secrets[secret].certificate && state.secrets[secret].disabled
      ensures Usable(state, secret) ==>
                r == if !(1 <= version <= state.secrets[secret].current) then Err(NoSuchVersion)
                     else if state.rows[(secret, version)].destroyed then Err(VersionDestroyed)
                     else Ok(state.rows[(secret, version)].value)
    {
      var refusal := Refusal(state, secret);
      if refusal.Some? {
        return Err(refusal.value);
      }
      assert VersionsExact(state);
      if (secret, version) !in state.rows {
        return Err(NoSuchVersion);
      }
      r := OpenStored(secret, version);
    }

    /** The value of the newest version that is not destroyed, if there is one. */
    method GetLatest(secret: nat) returns (r: Result<Bytes, VaultError>, ghost version: nat)
      requires Valid()
      ensures Refusal(state, secret).Some? ==> r == Err(Refusal(state, secret).value)
      ensures r == Err(NotFound) <==> secret !in state.secrets
      ensures r == Err(CertificateSecret) <==> secret in state.secrets && state.secrets[secret].certificate
      ensures r == Err(SecretDisabled) <==>
                secret in state.secrets && !state.secrets[secret].certificate && state.secrets[secret].disabled
      ensures Usable(state, secret) ==>
                if r.Ok? then Newest(state, secret, version) && r.value == state.rows[(secret, version)].value
                else r.error == NoSuchVersion && forall v: nat :: (secret, v) in state.rows ==>
                  state.rows[(secret, v)].destroyed
    {
      version := 0;
      var refusal := Refusal(state, secret);
      if refusal.Some? {
        return Err(refusal.value), version;
      }
      assert VersionsExact(state);
      var v := state.secrets[secret].current;
      while v > 0
        invariant 0 <= v <= state.secrets[secret].current
        invariant forall w: nat :: v < w && (secret, w) in state.rows ==> state.rows[(secret, w)].destroyed
      {
        if !state.rows[(secret, v)].destroyed {
          r := OpenStored(secret, v);
          return r, v;
        }
        v := v - 1;
      }
      return Err(NoSuchVersion), version;
    }

    /** Scrubs the payload, keeps the row; also on a disabled secret, and again without effect. */
    method DestroyVersion(secret: nat, version: nat) returns (ok: bool)
      requires Valid()
      modifies this
      ensures Valid() && ok == ((secret, version) in old(state).rows)
      ensures state == if ok then Apply(crypto, old(state), Destroy(secret, version)) else old(state)
      ensures ok ==>
                && state.secrets == old(state).secrets && state.rows.Keys == old(state).rows.Keys
                && state.rows[(secret, version)].destroyed && state.rows[(secret, version)].payload == ""
                && forall key :: key in old(state).rows && key != (secret, version) ==>
                     state.rows[key] == old(state).rows[key]
    {
      if (secret, version) !in state.rows {
        return false;
      }
      StepKeepsInvariant(crypto, state, Destroy(secret, version));
      var row := state.rows[(secret, version)];
      state := state.(rows := state.rows[(secret, version) := row.(destroyed := true, payload := "")]);
      return true;
    }
  }

  lemma FreshNumber(c: Crypto, s: State, secret: nat)
    requires Invariant(c, s) && secret in s.secrets
    ensures (secret, s.secrets[secret].current + 1) !in s.rows
  {
  }
}
