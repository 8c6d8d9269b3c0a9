/**
 * Replay nonces in the shared table (RFC 8555 section 6.5). Replicas issue, redeem and purge in any
 * order; every operation is one SQL statement, so a history is the sequence of those statements.
 */
module AcmeNonces {

  /** nonceTTL, in nanoseconds. */
  const TTL: int := 600_000_000_000

  /** acme_nonces: nonce (the primary key) to expires_at. */
  type Table = map<string, int>

  datatype Op =
    | Issue(nonce: string, now: int)
    | Redeem(nonce: string, now: int)
    | Purge(now: int)

  function Unexpired(t: Table, now: int): Table {
    map n | n in t && t[n] > now :: t[n]
  }

  /** Whether the operation succeeds: a key clash refuses an insert, a missing or expired row a delete. */
  predicate Accepts(t: Table, op: Op) {
    match op
    case Issue(n, _) => n !in t
    case Redeem(n, now) => n != "" && n in t && t[n] > now
    case Purge(_) => true
  }

  function Apply(t: Table, op: Op): Table {
    match op
    case Issue(n, now) => if n in t then t else t[n := now + TTL]
    case Redeem(n, _) => if Accepts(t, op) then t - {n} else t
    case Purge(now) => Unexpired(t, now)
  }

  function After(t: Table, ops: seq<Op>): Table {
    if ops == [] then t else Apply(After(t, ops[..|ops| - 1]), ops[|ops| - 1])
  }

  /** The answer given to the `i`th operation of a history that starts from an empty table. */
  predicate Answer(ops: seq<Op>, i: nat)
    requires i < |ops|
  {
    Accepts(After(map[], ops[..i]), ops[i])
  }

  /** The shared table as the replicas' NonceManager uses it. */
  class NonceTable {
    var rows: Table

    method New(nonce: string, now: int) returns (ok: bool)
      modifies this
      ensures ok == Accepts(old(rows), Issue(nonce, now)) && rows == Apply(old(rows), Issue(nonce, now))
      ensures ok <==> nonce !in old(rows)
      ensures rows == if ok then old(rows)[nonce := now + 10 * 60 * 1_000_000_000] else old(rows)
    {
      ok := nonce !in rows;
      if ok {
        rows := rows[nonce := now + TTL];
      }
    }

    method Consume(nonce: string, now: int) returns (ok: bool)
      modifies this
      ensures ok == Accepts(old(rows), Redeem(nonce, now)) && rows == Apply(old(rows), Redeem(nonce, now))
      ensures ok <==> nonce != "" && nonce in old(rows) && now < old(rows)[nonce]
      ensures rows == if ok then old(rows) - {nonce} else old(rows)
    {
      if nonce == "" {
        return false;
      }
      ok := nonce in rows && rows[nonce] > now;
      if ok {
        rows := rows - {nonce};
      }
    }

    method PurgeExpired(now: int) returns (dropped: nat)
      modifies this
      ensures rows == Apply(old(rows), Purge(now))
      ensures forall n :: n in rows <==> n in old(rows) && now < old(rows)[n]
      ensures forall n :: n in rows ==> rows[n] == old(rows)[n]
      ensures dropped == |set n | n in old(rows) && old(rows)[n] <= now|
    {
      var gone := set n | n in rows && rows[n] <= now;
      dropped := |gone|;
      rows := rows - gone;
    }
  }

  // ---------- single use ----------

  /** `i` is an accepted issue of the nonce, and nothing accepted touched the nonce between `i` and `j`. */
  ghost predicate OpenedBy(ops: seq<Op>, nonce: string, i: nat, j: nat) {
    && i < j <= |ops|
    && ops[i].Issue? && ops[i].nonce == nonce && Answer(ops, i)
    && forall k :: i < k < j && Answer(ops, k) ==> ops[k].Purge? || ops[k].nonce != nonce
  }

  /** A row in the table has an opening issue that set its expiry. */
  lemma {:induction false} RowHasOpening(ops: seq<Op>, j: nat, nonce: string) returns (i: nat)
    requires j <= |ops| && nonce in After(map[], ops[..j])
    ensures OpenedBy(ops, nonce, i, j)
    ensures After(map[], ops[..j])[nonce] == ops[i].now + TTL
  {
    var t := After(map[], ops[..j - 1]);
    assert ops[..j][..j - 1] == ops[..j - 1] && ops[..j][j - 1] == ops[j - 1];
    if ops[j - 1].Issue? && ops[j - 1].nonce == nonce && nonce !in t {
      i := j - 1;
    } else {
      i := RowHasOpening(ops, j - 1, nonce);
    }
  }

  /**
   * Accepted redemptions inject into accepted issues: each uses up an earlier issue of the same
   * nonce, not expired at that moment, which no later redemption can use again.
   */
  lemma RedemptionUsesOwnIssue(ops: seq<Op>, j: nat) returns (i: nat)
    requires j < |ops| && ops[j].Redeem? && Answer(ops, j)
    ensures OpenedBy(ops, ops[j].nonce, i, j)
    ensures ops[j].now < ops[i].now + TTL
    ensures forall k :: j < k < |ops| ==> !OpenedBy(ops, ops[j].nonce, i, k)
  {
    i := RowHasOpening(ops, j, ops[j].nonce);
  }

  ghost predicate FreshNonces(ops: seq<Op>) {
    forall i, j :: 0 <= i < j < |ops| && ops[i].Issue? && ops[j].Issue? ==> ops[i].nonce != ops[j].nonce
  }

  /** With random nonces that never repeat, each is accepted at most once across all replicas. */
  lemma AcceptedAtMostOnce(ops: seq<Op>, j: nat, k: nat)
    requires FreshNonces(ops) && j < k < |ops|
    requires ops[j].Redeem? && ops[k].Redeem? && ops[j].nonce == ops[k].nonce
    ensures !(Answer(ops, j) && Answer(ops, k))
  {
    if Answer(ops, j) && Answer(ops, k) {
      var a := RedemptionUsesOwnIssue(ops, j);
      var b := RedemptionUsesOwnIssue(ops, k);
    }
  }

  // ---------- purging is invisible ----------

  ghost predicate MonotoneClock(ops: seq<Op>) {
    forall i, j :: 0 <= i < j < |ops| ==> ops[i].now <= ops[j].now
  }

  function WithoutPurges(ops: seq<Op>): seq<Op> {
    if ops == [] then []
    else
      var rest := WithoutPurges(ops[..|ops| - 1]);
      if ops[|ops| - 1].Purge? then rest else rest + [ops[|ops| - 1]]
  }

  /** The answers to everything but the purges, in order. */
  function Answers(t: Table, ops: seq<Op>): seq<bool> {
    if ops == [] then []
    else
      var before := ops[..|ops| - 1];
      var last := ops[|ops| - 1];
      if last.Purge? then Answers(t, before) else Answers(t, before) + [Accepts(After(t, before), last)]
  }

  /** What a purging table lacks has expired by the latest clock reading. */
  ghost predicate Lags(purged: Table, full: Table, clock: int) {
    && (forall n :: n in purged ==> n in full && full[n] == purged[n])
    && (forall n :: n in full && n !in purged ==> full[n] <= clock)
  }

  lemma {:induction false} RowsWereIssued(ops: seq<Op>, n: string) returns (i: nat)
    requires n in After(map[], WithoutPurges(ops))
    ensures i < |ops| && ops[i].Issue? && ops[i].nonce == n
  {
    var before, last := ops[..|ops| - 1], ops[|ops| - 1];
    var rest := WithoutPurges(before);
    if !last.Purge? {
      assert (rest + [last])[..|rest + [last]| - 1] == rest;
    }
    if n in After(map[], rest) {
      i := RowsWereIssued(before, n);
    } else {
      i := |ops| - 1;
    }
  }

  /** One statement, run on both tables: same answer, and the purging table still only lags. */
  lemma StepLags(purged: Table, full: Table, clock: int, op: Op)
    requires Lags(purged, full, clock) && clock <= op.now
    requires op.Issue? ==> op.nonce !in full
    ensures Lags(Apply(purged, op), if op.Purge? then full else Apply(full, op), op.now)
    ensures !op.Purge? ==> Accepts(purged, op) == Accepts(full, op)
  {
  }

  lemma NothingLags(clock: int)
    ensures Lags(map[], map[], clock)
  {
  }

  lemma {:induction false} PurgedTableLags(ops: seq<Op>, start: int)
    requires FreshNonces(ops) && MonotoneClock(ops)
    requires forall i :: 0 <= i < |ops| ==> start <= ops[i].now
    ensures Lags(After(map[], ops), After(map[], WithoutPurges(ops)), if ops == [] then start else ops[|ops| - 1].now)
    ensures Answers(map[], ops) == Answers(map[], WithoutPurges(ops))
  {
    hide Lags, Accepts, Apply;
    if ops == [] {
      NothingLags(start);
    } else {
      var before, last := ops[..|ops| - 1], ops[|ops| - 1];
      var rest := WithoutPurges(before);
      PurgedTableLags(before, start);
      if last.Issue? && last.nonce in After(map[], rest) {
        var i := RowsWereIssued(before, last.nonce);
        assert false;
      }
      var now := if before == [] then start else before[|before| - 1].now;
      StepLags(After(map[], before), After(map[], rest), now, last);
      if !last.Purge? {
        assert (rest + [last])[..|rest + [last]| - 1] == rest;
      }
    }
  }

  /** With a monotone clock and fresh nonces, purging changes no answer that a client can see. */
  lemma PurgingIsInvisible(ops: seq<Op>)
    requires FreshNonces(ops) && MonotoneClock(ops)
    ensures Answers(map[], ops) == Answers(map[], WithoutPurges(ops))
  {
    PurgedTableLags(ops, if ops == [] then 0 else ops[0].now);
  }

  /** With a clock that steps back, a purge by a fast replica refuses a nonce a slow one would accept. */
  lemma ClockSkewMakesPurgingVisible(n: string, now: int)
    requires n != ""
    ensures var ops := [Issue(n, now), Purge(now + TTL), Redeem(n, now)];
            && FreshNonces(ops)
            && Answers(map[], ops) == [true, false]
            && Answers(map[], WithoutPurges(ops)) == [true, true]
  {
    var a, b, c := Issue(n, now), Purge(now + TTL), Redeem(n, now);
    var ops := [a, b, c];
    assert ops[..2] == [a, b] && [a, b][..1] == [a] && [a][..0] == [];
    assert WithoutPurges([a]) == [] + [a] == [a];
    assert WithoutPurges([a, b]) == [a];
    assert WithoutPurges(ops) == [a] + [c] == [a, c] && [a, c][..1] == [a];
    assert After(map[], [a]) == map[n := now + TTL];
    assert After(map[], [a, b]) == map[];
    assert Answers(map[], [a]) == [] + [true];
    assert Answers(map[], [a, b]) == [true];
    assert Answers(map[], ops) == [true] + [false];
    assert Answers(map[], [a, c]) == [true] + [true];
  }
}
