/** Webhook delivery rows, and what one claim or one recorded result does to them. */
module WebhookRows {
  import opened Common

  datatype Status = Pending | Delivered | Failed | Dead

  datatype Row = Row(
    webhookId: nat, event: string, payload: string,
    status: Status, attempts: nat, lastStatus: int, lastError: string,
    nextAttempt: Option<int>, claimedAt: Option<int>)

  /** The delivery table in id order; a row's id is its index. */
  type Table = seq<Row>

  /** What a dispatcher reports after one HTTP attempt. */
  datatype Outcome =
    | Accepted(httpStatus: int)
    | Refused(httpStatus: int, message: string, nextAttempt: Option<int>)

  function NewRow(webhookId: nat, event: string, payload: string, now: int): Row {
    Row(webhookId, event, payload, Pending, 0, 0, "", Some(now), None)
  }

  /** The condition that the claim statement states twice. */
  predicate Due(r: Row, now: int, staleBefore: int) {
    && (r.status.Pending? || (r.status.Failed? && r.nextAttempt.Some? && r.nextAttempt.value <= now))
    && (r.claimedAt.None? || r.claimedAt.value <= staleBefore)
  }

  predicate Final(r: Row) {
    r.status.Delivered? || r.status.Dead?
  }

  function Stamped(r: Row, now: int): Row {
    r.(claimedAt := Some(now))
  }

  function Recorded(r: Row, o: Outcome): Row {
    match o
    case Accepted(http) =>
      r.(status := Delivered, lastStatus := http, lastError := "", claimedAt := None)
    case Refused(http, message, next) =>
      r.(status := if next.Some? then Failed else Dead, attempts := r.attempts + 1,
         lastStatus := http, lastError := message, nextAttempt := next, claimedAt := None)
  }

  /** What a delivery is about never changes. */
  ghost predicate SameContent(r: Row, r': Row) {
    r'.webhookId == r.webhookId && r'.event == r.event && r'.payload == r.payload
  }

  /**
   * When a row may be claimed, status by status: a pending one at any instant, a failed one from its retry
   * time on if it has one, a delivered or dead one never; in each case only if it is unclaimed or its claim
   * is stale.
   */
  lemma DueExact(r: Row, now: int, staleBefore: int)
    ensures var free := r.claimedAt == None || r.claimedAt.value <= staleBefore;
            && (r.status == Pending ==> (Due(r, now, staleBefore) <==> free))
            && (r.status == Failed && r.nextAttempt.Some? ==>
                  (Due(r, now, staleBefore) <==> free && r.nextAttempt.value <= now))
            && (r.status == Failed && r.nextAttempt.None? ==> !Due(r, now, staleBefore))
            && (Final(r) <==> r.status == Delivered || r.status == Dead) && (Final(r) ==> !Due(r, now, staleBefore))
  {
  }

  /** A claim stamps the row and leaves everything else; before it is stale the row is not due again. */
  lemma StampedExact(r: Row, now: int, later: int, staleAfter: int)
    requires Due(r, now, now - staleAfter)
    ensures var s := Stamped(r, now);
            && s.claimedAt == Some(now) && s.(claimedAt := r.claimedAt) == r
            && (now <= later ==> (Due(s, later, later - staleAfter) <==> now + staleAfter <= later))
  {
  }

  /**
   * A refusal counts an attempt and records code and message; with a retry time the row is due from exactly
   * then on, without one never. An acceptance records the code and the row is never due.
   */
  lemma RecordedExact(r: Row, o: Outcome)
    ensures var s := Recorded(r, o);
            && SameContent(r, s) && s.claimedAt == None && s.lastStatus == o.httpStatus
            && (o.Accepted? ==>
                  s.status == Delivered && s.lastError == "" && s.attempts == r.attempts
                    && s.nextAttempt == r.nextAttempt)
            && (o.Refused? ==>
                  s.lastError == o.message && s.attempts == r.attempts + 1 && s.nextAttempt == o.nextAttempt)
            && (o.Refused? && o.nextAttempt.Some? ==>
                  && s.status == Failed
                  && forall now, staleBefore :: Due(s, now, staleBefore) <==> o.nextAttempt.value <= now)
            && (o.Refused? && o.nextAttempt.None? ==> s.status == Dead)
            && (o.Accepted? || o.nextAttempt.None? ==> forall now, staleBefore :: !Due(s, now, staleBefore))
  {
  }

  function EffectiveLimit(limit: int): (n: nat) {
    if limit <= 0 then 100 else limit
  }

  function Take<T>(s: seq<T>, n: nat): seq<T> {
    if n <= |s| then s[..n] else s
  }

  ghost predicate Ascending(ids: seq<nat>) {
    forall j, k :: 0 <= j < k < |ids| ==> ids[j] < ids[k]
  }

  /** Ids of the due rows from index `from` on, in id order. */
  function DueIds(rows: Table, from: nat, now: int, staleBefore: int): (ids: seq<nat>)
    requires from <= |rows|
    decreases |rows| - from
  {
    if from == |rows| then []
    else if Due(rows[from], now, staleBefore) then [from] + DueIds(rows, from + 1, now, staleBefore)
    else DueIds(rows, from + 1, now, staleBefore)
  }

  /** The scan finds the due rows, each once and in ascending order, and no others. */
  lemma {:induction false} DueIdsExact(rows: Table, from: nat, now: int, staleBefore: int)
    requires from <= |rows|
    ensures forall i :: i in DueIds(rows, from, now, staleBefore) <==>
      from <= i < |rows| && Due(rows[i], now, staleBefore)
    ensures Ascending(DueIds(rows, from, now, staleBefore))
    decreases |rows| - from
  {
    if from < |rows| {
      DueIdsExact(rows, from + 1, now, staleBefore);
      var rest := DueIds(rows, from + 1, now, staleBefore);
      if Due(rows[from], now, staleBefore) {
        var ids := DueIds(rows, from, now, staleBefore);
        forall j, k | 0 <= j < k < |ids|
          ensures ids[j] < ids[k]
        {
          assert ids[k] == rest[k - 1] && rest[k - 1] in rest;
        }
      }
    }
  }

  /** The subquery: due rows in id order, cut at the limit. */
  function Candidates(rows: Table, now: int, staleAfter: int, limit: int): seq<nat> {
    Take(DueIds(rows, 0, now, now - staleAfter), EffectiveLimit(limit))
  }

  function StampAll(rows: Table, ids: seq<nat>, now: int): (out: Table)
    ensures |out| == |rows|
  {
    seq(|rows|, i requires 0 <= i < |rows| => if i in ids then Stamped(rows[i], now) else rows[i])
  }

  lemma CandidatesExact(rows: Table, now: int, staleAfter: int, limit: int)
    ensures var ids := Candidates(rows, now, staleAfter, limit);
            && Ascending(ids)
            && forall k :: 0 <= k < |ids| ==> ids[k] < |rows| && Due(rows[ids[k]], now, now - staleAfter)
  {
    var due := DueIds(rows, 0, now, now - staleAfter);
    var ids := Candidates(rows, now, staleAfter, limit);
    DueIdsExact(rows, 0, now, now - staleAfter);
    forall k | 0 <= k < |ids|
      ensures ids[k] < |rows| && Due(rows[ids[k]], now, now - staleAfter)
    {
      assert ids[k] == due[k] && due[k] in due;
    }
  }

  lemma StampNone(rows: Table, now: int)
    ensures StampAll(rows, [], now) == rows
  {
  }

  lemma StampNext(rows: Table, ids: seq<nat>, n: nat, now: int)
    requires n < |ids| && ids[n] < |rows| && Ascending(ids)
    ensures var before := StampAll(rows, ids[..n], now);
            && before[ids[n]] == rows[ids[n]]
            && before[ids[n] := Stamped(rows[ids[n]], now)] == StampAll(rows, ids[..n + 1], now)
  {
    assert ids[n] !in ids[..n];
    assert ids[..n + 1] == ids[..n] + [ids[n]];
  }

  /** Stamping the first `n` due rows leaves exactly the later ones due. */
  lemma {:induction false} StampingLeavesTheRest(rows: Table, from: nat, now: int, staleAfter: int, n: nat,
      ids: seq<nat>)
    requires from <= |rows| && staleAfter > 0
    requires n <= |DueIds(rows, from, now, now - staleAfter)|
    requires forall k :: from <= k < |rows| ==> (k in ids <==> k in DueIds(rows, from, now, now - staleAfter)[..n])
    ensures DueIds(StampAll(rows, ids, now), from, now, now - staleAfter)
         == DueIds(rows, from, now, now - staleAfter)[n..]
    decreases |rows| - from
  {
    if from < |rows| {
      var due := DueIds(rows, from, now, now - staleAfter);
      DueIdsExact(rows, from + 1, now, now - staleAfter);
      if Due(rows[from], now, now - staleAfter) && n > 0 {
        var rest := DueIds(rows, from + 1, now, now - staleAfter);
        assert due[..n] == [from] + rest[..n - 1];
        StampingLeavesTheRest(rows, from + 1, now, staleAfter, n - 1, ids);
      } else {
        assert Due(rows[from], now, now - staleAfter) ==> due[0] == from;
        StampingLeavesTheRest(rows, from + 1, now, staleAfter, n, ids);
      }
    }
  }

  /** The batches that repeated claims at one instant return, up to the first empty one. */
  function Drain(rows: Table, now: int, staleAfter: int, limit: int): seq<seq<nat>>
    requires staleAfter > 0
    decreases |DueIds(rows, 0, now, now - staleAfter)|
  {
    var ids := Candidates(rows, now, staleAfter, limit);
    if ids == [] then []
    else
      StampingLeavesTheRest(rows, 0, now, staleAfter, |ids|, ids);
      [ids] + Drain(StampAll(rows, ids, now), now, staleAfter, limit)
  }

  function Flatten(batches: seq<seq<nat>>): seq<nat> {
    if batches == [] then [] else batches[0] + Flatten(batches[1..])
  }

  /**
   * Repeated claims at one instant hand out every due delivery exactly once, in id order,
   * in batches that are all full except possibly the last.
   */
  lemma {:induction false} DrainIsExhaustive(rows: Table, now: int, staleAfter: int, limit: int)
    requires staleAfter > 0
    ensures var batches := Drain(rows, now, staleAfter, limit);
            && Flatten(batches) == DueIds(rows, 0, now, now - staleAfter)
            && (forall k :: 0 <= k < |batches| ==> 0 < |batches[k]| <= EffectiveLimit(limit))
            && (forall k :: 0 <= k < |batches| - 1 ==> |batches[k]| == EffectiveLimit(limit))
    decreases |DueIds(rows, 0, now, now - staleAfter)|
  {
    var due := DueIds(rows, 0, now, now - staleAfter);
    var ids := Candidates(rows, now, staleAfter, limit);
    if ids != [] {
      StampingLeavesTheRest(rows, 0, now, staleAfter, |ids|, ids);
      var rows' := StampAll(rows, ids, now);
      DrainIsExhaustive(rows', now, staleAfter, limit);
      var later := Drain(rows', now, staleAfter, limit);
      var batches := Drain(rows, now, staleAfter, limit);
      assert batches == [ids] + later && batches[1..] == later;
      assert due == ids + due[|ids|..];
      forall k | 0 <= k < |batches|
        ensures 0 < |batches[k]| <= EffectiveLimit(limit)
        ensures k < |batches| - 1 ==> |batches[k]| == EffectiveLimit(limit)
      {
        if k > 0 {
          assert batches[k] == later[k - 1];
        } else if |ids| < EffectiveLimit(limit) {
          assert Candidates(rows', now, staleAfter, limit) == [];
        }
      }
    }
  }

  /** With a stale period that is not positive, every claim returns the same batch for ever. */
  lemma {:induction false} NonPositiveStaleNeverDrains(rows: Table, now: int, staleAfter: int, limit: int)
    requires staleAfter <= 0
    ensures var ids := Candidates(rows, now, staleAfter, limit);
            Candidates(StampAll(rows, ids, now), now, staleAfter, limit) == ids
  {
    var ids := Candidates(rows, now, staleAfter, limit);
    CandidatesExact(rows, now, staleAfter, limit);
    forall i | i in ids
      ensures i < |rows| && Due(rows[i], now, now - staleAfter)
    {
      var k :| 0 <= k < |ids| && ids[k] == i;
    }
    RestampingKeepsDue(rows, 0, now, staleAfter, ids);
  }

  lemma {:induction false} RestampingKeepsDue(rows: Table, from: nat, now: int, staleAfter: int, ids: seq<nat>)
    requires from <= |rows| && staleAfter <= 0
    requires forall i :: i in ids ==> 0 <= i < |rows| && Due(rows[i], now, now - staleAfter)
    ensures DueIds(StampAll(rows, ids, now), from, now, now - staleAfter) == DueIds(rows, from, now, now - staleAfter)
    decreases |rows| - from
  {
    if from < |rows| {
      RestampingKeepsDue(rows, from + 1, now, staleAfter, ids);
    }
  }

  /** The due rows before this one. */
  ghost function DueBefore(rows: Table, i: nat, now: int, staleBefore: int): set<nat>
    requires i <= |rows|
  {
    set j: nat | j < i && Due(rows[j], now, staleBefore)
  }

  ghost function DueSet(rows: Table, from: nat, to: nat, now: int, staleBefore: int): set<nat>
    requires from <= to <= |rows|
  {
    set j: nat | from <= j < to && Due(rows[j], now, staleBefore)
  }

  /** The kth row of the scan has exactly k due rows before it. */
  lemma {:induction false} DueIdsRank(rows: Table, from: nat, now: int, staleBefore: int, k: nat)
    requires from <= |rows| && k < |DueIds(rows, from, now, staleBefore)|
    ensures var id := DueIds(rows, from, now, staleBefore)[k];
            from <= id < |rows| && |DueSet(rows, from, id, now, staleBefore)| == k
    decreases |rows| - from
  {
    hide Due;
    if Due(rows[from], now, staleBefore) {
      if k > 0 {
        DueIdsRank(rows, from + 1, now, staleBefore, k - 1);
        var id := DueIds(rows, from, now, staleBefore)[k];
        assert DueSet(rows, from, id, now, staleBefore) == {from} + DueSet(rows, from + 1, id, now, staleBefore);
      } else {
        assert DueSet(rows, from, from, now, staleBefore) == {};
      }
    } else {
      DueIdsRank(rows, from + 1, now, staleBefore, k);
      var id := DueIds(rows, from, now, staleBefore)[k];
      assert DueSet(rows, from, id, now, staleBefore) == DueSet(rows, from + 1, id, now, staleBefore);
    }
  }

  /** A row is picked exactly if it is due and fewer due rows than the limit come before it. */
  lemma PickedExact(rows: Table, now: int, staleAfter: int, limit: int, i: nat)
    requires i < |rows|
    ensures i in Candidates(rows, now, staleAfter, limit)
       <==> && Due(rows[i], now, now - staleAfter)
            && |DueBefore(rows, i, now, now - staleAfter)| < if limit > 0 then limit else 100
  {
    hide Due;
    var due := DueIds(rows, 0, now, now - staleAfter);
    var ids := Candidates(rows, now, staleAfter, limit);
    DueIdsExact(rows, 0, now, now - staleAfter);
    assert forall j :: 0 <= j < |ids| ==> ids[j] == due[j] && due[j] in due;
    if Due(rows[i], now, now - staleAfter) {
      var k :| 0 <= k < |due| && due[k] == i;
      DueIdsRank(rows, 0, now, now - staleAfter, k);
      assert DueSet(rows, 0, i, now, now - staleAfter) == DueBefore(rows, i, now, now - staleAfter);
      if k < |ids| {
        assert ids[k] == i;
      } else {
        assert forall j :: 0 <= j < |ids| ==> ids[j] < due[k];
      }
    }
  }

  /** A row as `RETURNING` hands it to a dispatcher. */
  datatype Delivery = Delivery(id: nat, webhookId: nat, event: string, payload: string, attempts: nat)

  function DeliveryOf(rows: Table, id: nat): Delivery
    requires id < |rows|
  {
    Delivery(id, rows[id].webhookId, rows[id].event, rows[id].payload, rows[id].attempts)
  }

  /** What a claim returns and leaves, row by row. */
  lemma ClaimExact(rows: Table, now: int, staleAfter: int, limit: int, out: seq<Delivery>)
    requires var ids := Candidates(rows, now, staleAfter, limit);
             |out| == |ids| && forall k :: 0 <= k < |ids| ==> ids[k] < |rows| && out[k] == DeliveryOf(rows, ids[k])
    ensures var after := StampAll(rows, Candidates(rows, now, staleAfter, limit), now);
            && |after| == |rows|
            && (forall i :: 0 <= i < |rows| ==>
                  var picked := && Due(rows[i], now, now - staleAfter)
                                && |DueBefore(rows, i, now, now - staleAfter)| < if limit > 0 then limit else 100;
                  && after[i] == (if picked then rows[i].(claimedAt := Some(now)) else rows[i])
                  && (picked <==> exists d :: d in out && d.id == i))
            && (forall j, k :: 0 <= j < k < |out| ==> out[j].id < out[k].id)
            && forall d :: d in out ==>
                 && d.id < |after| && d.webhookId == after[d.id].webhookId && d.event == after[d.id].event
                 && d.payload == after[d.id].payload && d.attempts == after[d.id].attempts
  {
    hide Due, Candidates, DueBefore;
    var ids := Candidates(rows, now, staleAfter, limit);
    CandidatesExact(rows, now, staleAfter, limit);
    forall i | 0 <= i < |rows|
      ensures i in ids <==> && Due(rows[i], now, now - staleAfter)
                            && |DueBefore(rows, i, now, now - staleAfter)| < if limit > 0 then limit else 100
      ensures i in ids <==> exists d :: d in out && d.id == i
    {
      PickedExact(rows, now, staleAfter, limit, i);
      assert forall k :: 0 <= k < |out| ==> out[k].id == ids[k] && ids[k] in ids;
      if i in ids {
        var k :| 0 <= k < |ids| && ids[k] == i;
        assert out[k] in out && out[k].id == i;
      }
    }
  }

  /** The `webhook_deliveries` table of one database. */
  class DeliveryTable {
    var rows: Table

    constructor ()
      ensures rows == []
    {
      rows := [];
    }

    method Create(webhookId: nat, event: string, payload: string, now: int) returns (id: nat)
      modifies this
      ensures id == |old(rows)| && rows == old(rows) + [NewRow(webhookId, event, payload, now)]
      ensures var r := rows[id];
              && r.webhookId == webhookId && r.event == event && r.payload == payload
              && r.status == Pending && r.attempts == 0 && r.lastStatus == 0 && r.lastError == "" && r.claimedAt == None
              && r.nextAttempt == Some(now) && forall at, staleBefore :: Due(r, at, staleBefore)
    {
      id := |rows|;
      rows := rows + [NewRow(webhookId, event, payload, now)];
    }

    /** One claim with no other claimant running. */
    method ClaimDue(now: int, staleAfter: int, limit: int) returns (out: seq<Delivery>)
      modifies this
      ensures var ids := Candidates(old(rows), now, staleAfter, limit);
              && rows == StampAll(old(rows), ids, now)
              && |out| == |ids|
              && forall k :: 0 <= k < |ids| ==> ids[k] < |old(rows)| && out[k] == DeliveryOf(old(rows), ids[k])
      ensures |rows| == |old(rows)|
      ensures forall i :: 0 <= i < |rows| ==>
                var picked := && Due(old(rows)[i], now, now - staleAfter)
                              && |DueBefore(old(rows), i, now, now - staleAfter)| < if limit > 0 then limit else 100;
                && rows[i] == (if picked then old(rows)[i].(claimedAt := Some(now)) else old(rows)[i])
                && (picked <==> exists d :: d in out && d.id == i)
      ensures forall j, k :: 0 <= j < k < |out| ==> out[j].id < out[k].id
      ensures forall d :: d in out ==>
                && d.id < |rows| && d.webhookId == rows[d.id].webhookId && d.event == rows[d.id].event
                && d.payload == rows[d.id].payload && d.attempts == rows[d.id].attempts
    {
      hide StampAll;
      var ids := Candidates(rows, now, staleAfter, limit);
      CandidatesExact(rows, now, staleAfter, limit);
      StampNone(rows, now);
      out := [];
      var next := 0;
      while next < |ids|
        invariant 0 <= next <= |ids| && |out| == next
        invariant rows == StampAll(old(rows), ids[..next], now)
        invariant forall k :: 0 <= k < next ==> out[k] == DeliveryOf(old(rows), ids[k])
      {
        var id := ids[next];
        StampNext(old(rows), ids, next, now);
        out := out + [DeliveryOf(rows, id)];
        rows := rows[id := Stamped(rows[id], now)];
        next := next + 1;
      }
      assert ids[..next] == ids;
      ClaimExact(old(rows), now, staleAfter, limit, out);
    }

    method RecordResult(id: nat, o: Outcome)
      modifies this
      ensures rows == if id < |old(rows)| then old(rows)[id := Recorded(old(rows)[id], o)] else old(rows)
      ensures id < |rows| ==>
                var r, s := old(rows)[id], rows[id];
                && SameContent(r, s) && s.claimedAt == None && s.lastStatus == o.httpStatus
                && match o
                   case Accepted(_) => s.status == Delivered && s.lastError == "" && s.attempts == r.attempts
                   case Refused(_, message, next) =>
                     && s.lastError == message && s.attempts == r.attempts + 1
                     && s.status == (if next.Some? then Failed else Dead)
                     && forall now, staleBefore :: Due(s, now, staleBefore) <==> next.Some? && next.value <= now
    {
      if id < |rows| {
        rows := rows[id := Recorded(rows[id], o)];
      }
    }
  }
}
