/**
 * Versions of a secret under concurrent transactions. A Put reserves its version number by incrementing
 * the secret's row, seals to that number, inserts the version row and commits; the row lock taken by the
 * increment is held until commit or rollback.
 */
module SecretVersions {
  import opened Envelope

  /** `value` and `entropy` are history: what the Put was given and what its Seal drew. */
  datatype Row = Row(payload: string, destroyed: bool, value: Bytes, entropy: Entropy)

  datatype Secret = Secret(current: nat, certificate: bool, disabled: bool)

  datatype Stage = Reserved | Encrypted(payload: string, entropy: Entropy) | Inserted(row: Row)

  /** An open transaction: the version it reserved and the value it was given. */
  datatype Tx = Tx(secret: nat, version: nat, value: Bytes, stage: Stage)

  /** Committed tables, and what the open transactions have not committed yet. */
  datatype State = State(secrets: map<nat, Secret>, rows: map<(nat, nat), Row>, txs: map<nat, Tx>)

  const EMPTY := State(map[], map[], map[])

  datatype Action =
    | CreateSecret(secret: nat, certificate: bool)
    | SetDisabled(secret: nat, disabled: bool)
    | Reserve(pid: nat, secret: nat, value: Bytes)
    | Encrypt(pid: nat, entropy: Entropy)
    | Insert(pid: nat)
    | Commit(pid: nat)
    | Rollback(pid: nat)
    | Destroy(secret: nat, version: nat)

  predicate Locked(s: State, secret: nat) {
    exists pid :: pid in s.txs && s.txs[pid].secret == secret
  }

  /** UNIQUE(secret_id, version), against committed rows and those of other open transactions. */
  predicate Conflicts(s: State, pid: nat)
    requires pid in s.txs
  {
    var t := s.txs[pid];
    || (t.secret, t.version) in s.rows
    || exists q :: q in s.txs && q != pid && s.txs[q].stage.Inserted? && s.txs[q].secret == t.secret
         && s.txs[q].version == t.version
  }

  predicate Enabled(s: State, a: Action) {
    match a
    case CreateSecret(secret, _) => secret !in s.secrets
    case SetDisabled(secret, _) => secret in s.secrets && !Locked(s, secret)
    case Reserve(pid, secret, _) => pid !in s.txs && secret in s.secrets && !Locked(s, secret)
    case Encrypt(pid, entropy) => pid in s.txs && s.txs[pid].stage.Reserved? && GoodEntropy(entropy)
    case Insert(pid) => pid in s.txs && s.txs[pid].stage.Encrypted? && !Conflicts(s, pid)
    case Commit(pid) => pid in s.txs && s.txs[pid].stage.Inserted? && s.txs[pid].secret in s.secrets
    case Rollback(pid) => pid in s.txs
    case Destroy(secret, version) => (secret, version) in s.rows
  }

  function Apply(c: Crypto, s: State, a: Action): State
    requires Enabled(s, a)
  {
    match a
    case CreateSecret(secret, certificate) => s.(secrets := s.secrets[secret := Secret(0, certificate, false)])
    case SetDisabled(secret, disabled) => s.(secrets := s.secrets[secret := s.secrets[secret].(disabled := disabled)])
    case Reserve(pid, secret, value) =>
      s.(txs := s.txs[pid := Tx(secret, s.secrets[secret].current + 1, value, Reserved)])
    case Encrypt(pid, entropy) =>
      var t := s.txs[pid];
      s.(txs := s.txs[pid := t.(stage := Encrypted(Sealed(c, entropy, t.value, Aad(t.secret, t.version)), entropy))])
    case Insert(pid) =>
      var t := s.txs[pid];
      s.(txs := s.txs[pid := t.(stage := Inserted(Row(t.stage.payload, false, t.value, t.stage.entropy)))])
    case Commit(pid) =>
      var t := s.txs[pid];
      State(s.secrets[t.secret := s.secrets[t.secret].(current := t.version)],
            s.rows[(t.secret, t.version) := t.stage.row], s.txs - {pid})
    case Rollback(pid) => s.(txs := s.txs - {pid})
    case Destroy(secret, version) =>
      s.(rows := s.rows[(secret, version) := s.rows[(secret, version)].(destroyed := true, payload := "")])
  }

  predicate Runs(c: Crypto, s: State, acts: seq<Action>)
    decreases |acts|
  {
    acts == [] || (Enabled(s, acts[0]) && Runs(c, Apply(c, s, acts[0]), acts[1..]))
  }

  function After(c: Crypto, s: State, acts: seq<Action>): State
    requires Runs(c, s, acts)
    decreases |acts|
  {
    if acts == [] then s else After(c, Apply(c, s, acts[0]), acts[1..])
  }

  // ---------- the invariant ----------

  /** The row holds the value sealed to exactly this position, or has been scrubbed. */
  ghost predicate SealedHere(c: Crypto, secret: nat, version: nat, r: Row) {
    && GoodEntropy(r.entropy)
    && (if r.destroyed then r.payload == "" else r.payload == Sealed(c, r.entropy, r.value, Aad(secret, version)))
  }

  ghost predicate TxConsistent(c: Crypto, s: State, t: Tx) {
    && t.secret in s.secrets && t.version == s.secrets[t.secret].current + 1
    && (t.stage.Encrypted? ==>
      SealedHere(c, t.secret, t.version, Row(t.stage.payload, false, t.value, t.stage.entropy)))
    && (t.stage.Inserted? ==>
          && SealedHere(c, t.secret, t.version, t.stage.row) && !t.stage.row.destroyed
          && t.stage.row.value == t.value)
  }

  /** The rows of every secret are exactly 1 to its current version. */
  ghost predicate VersionsExact(s: State) {
    forall secret: nat, version: nat ::
      (secret, version) in s.rows <==> secret in s.secrets && 1 <= version <= s.secrets[secret].current
  }

  ghost predicate OneWriter(s: State) {
    forall p, q :: p in s.txs && q in s.txs && s.txs[p].secret == s.txs[q].secret ==> p == q
  }

  ghost predicate Invariant(c: Crypto, s: State) {
    && VersionsExact(s) && OneWriter(s)
    && (forall pid :: pid in s.txs ==> TxConsistent(c, s, s.txs[pid]))
    && (forall secret: nat, version: nat :: (secret, version) in s.rows ==>
          SealedHere(c, secret, version, s.rows[(secret, version)]))
  }

  lemma StepKeepsInvariant(c: Crypto, s: State, a: Action)
    requires Invariant(c, s) && Enabled(s, a)
    ensures Invariant(c, Apply(c, s, a))
  {
    hide Sealed, Aad, GoodEntropy;
    var t := Apply(c, s, a);
    forall pid | pid in t.txs
      ensures TxConsistent(c, t, t.txs[pid])
    {
      if pid in s.txs {
        assert TxConsistent(c, s, s.txs[pid]);
      }
    }
  }

  lemma {:induction false} RunKeepsInvariant(c: Crypto, s: State, acts: seq<Action>)
    requires Invariant(c, s) && Runs(c, s, acts)
    ensures Invariant(c, After(c, s, acts))
    decreases |acts|
  {
    hide Invariant, Enabled, Apply;
    if acts != [] {
      StepKeepsInvariant(c, s, acts[0]);
      RunKeepsInvariant(c, Apply(c, s, acts[0]), acts[1..]);
    }
  }

  /** The reserved number is free: the insert never meets the unique constraint. */
  lemma InsertNeverConflicts(c: Crypto, s: State, pid: nat)
    requires Invariant(c, s) && pid in s.txs
    ensures !Conflicts(s, pid)
  {
    assert TxConsistent(c, s, s.txs[pid]);
  }

  /**
   * While a transaction is open, no step of another one touches its secret's row or reserves a number of
   * that secret; when it ends, the row is free again, and a rollback leaves no trace.
   */
  lemma RowLockHolds(c: Crypto, s: State, a: Action, pid: nat)
    requires Invariant(c, s) && Enabled(s, a) && pid in s.txs
    ensures var secret := s.txs[pid].secret;
            var t := Apply(c, s, a);
            && secret in s.secrets && secret in t.secrets
            && (a != Commit(pid) && a != Rollback(pid) ==>
                  && t.secrets[secret] == s.secrets[secret]
                  && pid in t.txs && t.txs[pid].secret == secret && t.txs[pid].version == s.txs[pid].version)
            && (a == Commit(pid) || a == Rollback(pid) ==> !Locked(t, secret))
            && (a == Rollback(pid) ==> t.secrets == s.secrets && t.rows == s.rows)
  {
    hide SealedHere, VersionsExact;
    assert TxConsistent(c, s, s.txs[pid]);
    assert Locked(s, s.txs[pid].secret);
    assert forall q :: q in s.txs && q != pid ==> s.txs[q].secret != s.txs[pid].secret;
  }

  /** In every run the version rows of each secret are exactly 1 to its current version. */
  lemma VersionsHaveNoGap(c: Crypto, acts: seq<Action>)
    requires Runs(c, EMPTY, acts)
    ensures VersionsExact(After(c, EMPTY, acts))
  {
    RunKeepsInvariant(c, EMPTY, acts);
  }

  // ---------- what a committed version returns ----------

  lemma StepKeepsRow(c: Crypto, s: State, a: Action, secret: nat, version: nat)
    requires Invariant(c, s) && Enabled(s, a) && (secret, version) in s.rows
    ensures var t := Apply(c, s, a);
            && (secret, version) in t.rows
            && t.rows[(secret, version)].value == s.rows[(secret, version)].value
            && (s.rows[(secret, version)].destroyed ==> t.rows[(secret, version)].destroyed)
  {
    hide Sealed, Aad, GoodEntropy, SealedHere;
    if a.Commit? {
      assert TxConsistent(c, s, s.txs[a.pid]);
    }
  }

  lemma {:induction false} RowStays(c: Crypto, s: State, acts: seq<Action>, secret: nat, version: nat)
    requires Invariant(c, s) && Runs(c, s, acts) && (secret, version) in s.rows
    ensures var t := After(c, s, acts);
            && (secret, version) in t.rows
            && t.rows[(secret, version)].value == s.rows[(secret, version)].value
            && (s.rows[(secret, version)].destroyed ==> t.rows[(secret, version)].destroyed)
    decreases |acts|
  {
    hide Invariant, Enabled, Apply;
    if acts != [] {
      StepKeepsInvariant(c, s, acts[0]);
      StepKeepsRow(c, s, acts[0], secret, version);
      RowStays(c, Apply(c, s, acts[0]), acts[1..], secret, version);
    }
  }

  function OpenRow(c: Crypto, secret: nat, version: nat, r: Row): Outcome<Bytes> {
    Opened(c, r.payload, Aad(secret, version))
  }

  lemma RowOpens(c: Crypto, s: State, secret: nat, version: nat)
    requires Ideal(c) && Invariant(c, s) && (secret, version) in s.rows && !s.rows[(secret, version)].destroyed
    ensures OpenRow(c, secret, version, s.rows[(secret, version)]) == Done(s.rows[(secret, version)].value)
  {
    hide Ideal, GoodEntropy, Opened, Sealed;
    var r := s.rows[(secret, version)];
    assert SealedHere(c, secret, version, r);
    OpenOfSeal(c, r.entropy, r.value, Aad(secret, version));
  }

  /**
   * Once a Put has committed its version, in every later state that row exists and, until destroyed,
   * opens to exactly the bytes the Put was given, whatever else commits, rolls back or is destroyed.
   */
  lemma CommittedVersionOpensForever(c: Crypto, s: State, pid: nat, acts: seq<Action>)
    requires Ideal(c) && Invariant(c, s) && Enabled(s, Commit(pid))
    requires Runs(c, Apply(c, s, Commit(pid)), acts)
    ensures var tx := s.txs[pid];
            var t := After(c, Apply(c, s, Commit(pid)), acts);
            && tx.version == s.secrets[tx.secret].current + 1
            && (tx.secret, tx.version) in t.rows
            && (!t.rows[(tx.secret, tx.version)].destroyed ==>
                  OpenRow(c, tx.secret, tx.version, t.rows[(tx.secret, tx.version)]) == Done(tx.value))
  {
    hide Ideal, OpenRow, SealedHere, Runs, After;
    var tx := s.txs[pid];
    assert TxConsistent(c, s, tx);
    var u := Apply(c, s, Commit(pid));
    StepKeepsInvariant(c, s, Commit(pid));
    RowStays(c, u, acts, tx.secret, tx.version);
    RunKeepsInvariant(c, u, acts);
    if !After(c, u, acts).rows[(tx.secret, tx.version)].destroyed {
      RowOpens(c, After(c, u, acts), tx.secret, tx.version);
    }
  }

  /** The payload of one version, stored at any other position, does not open there. */
  lemma MovedPayloadNeverOpens(c: Crypto, s: State, secret: nat, version: nat, secret': nat, version': nat)
    requires Ideal(c) && Invariant(c, s) && (secret, version) in s.rows && !s.rows[(secret, version)].destroyed
    requires InRange(secret) && InRange(version) && InRange(secret') && InRange(version')
    requires (secret', version') != (secret, version)
    ensures Opened(c, s.rows[(secret, version)].payload, Aad(secret', version')) == Failed(UnwrapFailed)
  {
    hide Ideal, GoodEntropy, Opened, Sealed, Aad;
    var r := s.rows[(secret, version)];
    assert SealedHere(c, secret, version, r);
    if Aad(secret, version) == Aad(secret', version') {
      AadInjective(secret, version, secret', version');
    }
    assert IsPosition(Aad(secret, version)) && IsPosition(Aad(secret', version'));
    MovedNeverOpens(c, r.entropy, r.value, Aad(secret, version), Aad(secret', version'));
  }
}
