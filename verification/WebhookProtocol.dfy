/**
 * Any number of dispatchers claiming from one delivery table at once.
 *
 * A claim is several steps: the subquery reads a snapshot, each chosen row is locked (or skipped
 * when somebody holds it), the outer condition is checked on the row version found under the lock,
 * and the commit writes every row that passed. The flag `outer` says whether the outer condition is
 * part of the statement; the statement in the source has it.
 */
module WebhookProtocol {
  import opened Common
  import opened WebhookRows

  datatype Session = Session(now: int, staleAfter: int, todo: set<nat>, locked: set<nat>, stamped: set<nat>)

  /** What happened to one delivery: a committed claim, or a recorded result. */
  datatype Event =
    | Claimed(who: nat, now: int, staleAfter: int)
    | Reported(outcome: Outcome)

  /** Committed rows, the claim statements in flight, and every row's past. */
  datatype State = State(rows: Table, sessions: map<nat, Session>, history: seq<seq<Event>>)

  datatype Action =
    | Begin(who: nat, now: int, staleAfter: int, limit: int, ids: set<nat>)
    | Lock(who: nat, id: nat)
    | Skip(who: nat, id: nat)
    | Recheck(who: nat, id: nat)
    | Commit(who: nat)
    | Abort(who: nat)
    | Record(id: nat, outcome: Outcome)
    | Insert(webhookId: nat, event: string, payload: string, at: int)

  predicate Holds(s: State, who: nat, id: nat) {
    who in s.sessions && id in s.sessions[who].locked + s.sessions[who].stamped
  }

  predicate Unlocked(s: State, id: nat) {
    forall who :: who in s.sessions ==> !Holds(s, who, id)
  }

  /**
   * What the subquery may return: due rows of the snapshot, up to the limit. Which ones depends on the
   * rows that SKIP LOCKED passes over.
   */
  predicate MayPick(rows: Table, now: int, staleAfter: int, limit: int, ids: set<nat>) {
    |ids| <= EffectiveLimit(limit) && forall id :: id in ids ==> id < |rows| && Due(rows[id], now, now - staleAfter)
  }

  predicate Enabled(s: State, a: Action) {
    match a
    case Begin(who, now, staleAfter, limit, ids) => who !in s.sessions && MayPick(s.rows, now, staleAfter, limit, ids)
    case Lock(who, id) => who in s.sessions && id in s.sessions[who].todo && Unlocked(s, id)
    case Skip(who, id) => who in s.sessions && id in s.sessions[who].todo
    case Recheck(who, id) => who in s.sessions && id in s.sessions[who].locked && id < |s.rows|
    case Commit(who) => who in s.sessions && s.sessions[who].todo == {} && s.sessions[who].locked == {}
    case Abort(who) => who in s.sessions
    case Record(id, _) => id < |s.rows| && |s.history| == |s.rows| && Unlocked(s, id)
    case Insert(_, _, _, _) => true
  }

  function IdSet(ids: seq<nat>): set<nat> {
    set i | i in ids
  }

  lemma {:induction false} IdSetSize(ids: seq<nat>)
    ensures |IdSet(ids)| <= |ids|
  {
    if ids != [] {
      IdSetSize(ids[1..]);
      assert IdSet(ids) == {ids[0]} + IdSet(ids[1..]);
    }
  }

  /** The first due rows, which a claimant alone gets, are one such choice. */
  lemma CandidatesMayBePicked(rows: Table, now: int, staleAfter: int, limit: int)
    ensures MayPick(rows, now, staleAfter, limit, IdSet(Candidates(rows, now, staleAfter, limit)))
  {
    var due := DueIds(rows, 0, now, now - staleAfter);
    var ids := Candidates(rows, now, staleAfter, limit);
    DueIdsExact(rows, 0, now, now - staleAfter);
    IdSetSize(ids);
    forall id | id in ids
      ensures id in due
    {
      var k :| 0 <= k < |ids| && ids[k] == id;
      assert due[k] == id;
    }
  }

  function CommitRows(rows: Table, c: Session): (out: Table)
    ensures |out| == |rows|
  {
    seq(|rows|, i requires 0 <= i < |rows| => if i in c.stamped then Stamped(rows[i], c.now) else rows[i])
  }

  function CommitHistory(history: seq<seq<Event>>, who: nat, c: Session): (out: seq<seq<Event>>)
    ensures |out| == |history|
  {
    seq(|history|, i requires 0 <= i < |history| =>
      if i in c.stamped then history[i] + [Claimed(who, c.now, c.staleAfter)] else history[i])
  }

  function Apply(outer: bool, s: State, a: Action): State
    requires Enabled(s, a)
  {
    match a
    case Begin(who, now, staleAfter, _, ids) =>
      s.(sessions := s.sessions[who := Session(now, staleAfter, ids, {}, {})])
    case Lock(who, id) =>
      var c := s.sessions[who];
      s.(sessions := s.sessions[who := c.(todo := c.todo - {id}, locked := c.locked + {id})])
    case Skip(who, id) =>
      var c := s.sessions[who];
      s.(sessions := s.sessions[who := c.(todo := c.todo - {id})])
    case Recheck(who, id) =>
      var c := s.sessions[who];
      var passes := !outer || Due(s.rows[id], c.now, c.now - c.staleAfter);
      s.(sessions := s.sessions[who :=
           c.(locked := c.locked - {id}, stamped := if passes then c.stamped + {id} else c.stamped)])
    case Commit(who) =>
      var c := s.sessions[who];
      State(CommitRows(s.rows, c), s.sessions - {who}, CommitHistory(s.history, who, c))
    case Abort(who) => s.(sessions := s.sessions - {who})
    case Record(id, o) =>
      s.(rows := s.rows[id := Recorded(s.rows[id], o)],
         history := s.history[id := s.history[id] + [Reported(o)]])
    case Insert(webhookId, event, payload, at) =>
      s.(rows := s.rows + [NewRow(webhookId, event, payload, at)], history := s.history + [[]])
  }

  const EMPTY := State([], map[], [])

  /** `acts` can be taken in order from `s`. */
  predicate Runs(outer: bool, s: State, acts: seq<Action>)
    decreases |acts|
  {
    acts == [] || (Enabled(s, acts[0]) && Runs(outer, Apply(outer, s, acts[0]), acts[1..]))
  }

  function After(outer: bool, s: State, acts: seq<Action>): State
    requires Runs(outer, s, acts)
    decreases |acts|
  {
    if acts == [] then s else After(outer, Apply(outer, s, acts[0]), acts[1..])
  }

  // ---------- what every step keeps ----------

  ghost predicate ExclusiveLocks(s: State) {
    forall p, q, id :: Holds(s, p, id) && Holds(s, q, id) ==> p == q
  }

  /** A row that passed the outer check still satisfies it: nobody can write it before the commit. */
  ghost predicate StampedAreDue(s: State) {
    forall who :: who in s.sessions ==> PassedAreDue(s.rows, s.sessions[who])
  }

  ghost predicate PassedAreDue(rows: Table, c: Session) {
    forall id :: id in c.stamped ==> id < |rows| && Due(rows[id], c.now, c.now - c.staleAfter)
  }

  /** Two successive claims with no result between them are a stale period apart. */
  ghost predicate Spaced(h: seq<Event>) {
    forall k :: 0 < k < |h| && h[k - 1].Claimed? && h[k].Claimed? ==> h[k - 1].now + h[k].staleAfter <= h[k].now
  }

  /** The row is claimed exactly if the last thing that happened to it is a claim, and since then. */
  ghost predicate HistoryAgrees(r: Row, h: seq<Event>) {
    r.claimedAt == if h != [] && h[|h| - 1].Claimed? then Some(h[|h| - 1].now) else None
  }

  /** The last result recorded. */
  function LastReport(h: seq<Event>): Option<Outcome> {
    if h == [] then None
    else if h[|h| - 1].Reported? then Some(h[|h| - 1].outcome)
    else LastReport(h[..|h| - 1])
  }

  /** The row is as the last result recorded for it says. */
  ghost predicate ReportAgrees(r: Row, h: seq<Event>) {
    match LastReport(h)
    case None => r.status == Pending && r.lastError == ""
    case Some(Accepted(code)) => r.status == Delivered && r.lastStatus == code && r.lastError == ""
    case Some(Refused(code, message, next)) =>
      && r.status == (if next.Some? then Failed else Dead)
      && r.lastStatus == code && r.lastError == message && r.nextAttempt == next
  }

  /** A claim made after this result: it was a refusal with a retry time, and that time had come. */
  ghost predicate MayFollow(report: Option<Outcome>, now: int) {
    report.Some? ==> report.value.Refused? && report.value.nextAttempt.Some? && report.value.nextAttempt.value <= now
  }

  /** Every claim waited for the retry time of the last result before it. */
  ghost predicate Waited(h: seq<Event>) {
    forall k :: 0 <= k < |h| && h[k].Claimed? ==> MayFollow(LastReport(h[..k]), h[k].now)
  }

  function Refusals(h: seq<Event>): nat {
    if h == [] then 0
    else Refusals(h[..|h| - 1]) + (if h[|h| - 1].Reported? && h[|h| - 1].outcome.Refused? then 1 else 0)
  }

  ghost predicate Invariant(s: State) {
    && |s.history| == |s.rows|
    && ExclusiveLocks(s)
    && StampedAreDue(s)
    && forall i :: 0 <= i < |s.rows| ==> RowAgrees(s.rows[i], s.history[i])
  }

  ghost predicate RowAgrees(r: Row, h: seq<Event>) {
    HistoryAgrees(r, h) && ReportAgrees(r, h) && Spaced(h) && Waited(h) && r.attempts == Refusals(h)
  }

  /** Stamping a due row continues its history by a claim that keeps the distance. */
  lemma StampedAgrees(r: Row, h: seq<Event>, who: nat, now: int, staleAfter: int)
    requires RowAgrees(r, h) && Due(r, now, now - staleAfter)
    ensures RowAgrees(Stamped(r, now), h + [Claimed(who, now, staleAfter)])
  {
    var more := h + [Claimed(who, now, staleAfter)];
    assert more[..|h|] == h;
    assert forall k :: 0 <= k < |h| ==> more[..k] == h[..k];
  }

  lemma RecordedAgrees(r: Row, h: seq<Event>, o: Outcome)
    requires RowAgrees(r, h)
    ensures RowAgrees(Recorded(r, o), h + [Reported(o)])
  {
    var more := h + [Reported(o)];
    assert more[..|h|] == h;
    assert forall k :: 0 <= k < |h| ==> more[..k] == h[..k];
  }

  lemma CommitKeepsLocks(s: State, who: nat)
    requires Invariant(s) && Enabled(s, Commit(who))
    ensures var t := Apply(true, s, Commit(who)); ExclusiveLocks(t) && StampedAreDue(t)
  {
    hide RowAgrees, Due;
    var t := Apply(true, s, Commit(who));
    assert forall q, id :: Holds(t, q, id) ==> Holds(s, q, id);
    forall q | q in t.sessions
      ensures PassedAreDue(t.rows, t.sessions[q])
    {
      assert t.sessions[q] == s.sessions[q] && PassedAreDue(s.rows, s.sessions[q]);
      forall id | id in t.sessions[q].stamped
        ensures t.rows[id] == s.rows[id]
      {
        assert Holds(s, q, id) && !Holds(s, who, id);
      }
    }
  }

  lemma CommitKeepsInvariant(s: State, who: nat)
    requires Invariant(s) && Enabled(s, Commit(who))
    ensures Invariant(Apply(true, s, Commit(who)))
  {
    hide RowAgrees, Due, ExclusiveLocks, Holds;
    var t := Apply(true, s, Commit(who));
    CommitKeepsLocks(s, who);
    var c := s.sessions[who];
    assert PassedAreDue(s.rows, c);
    forall i | 0 <= i < |t.rows|
      ensures RowAgrees(t.rows[i], t.history[i])
    {
      if i in c.stamped {
        StampedAgrees(s.rows[i], s.history[i], who, c.now, c.staleAfter);
      }
    }
  }

  lemma RecordKeepsInvariant(s: State, id: nat, o: Outcome)
    requires Invariant(s) && Enabled(s, Record(id, o))
    ensures Invariant(Apply(true, s, Record(id, o)))
  {
    hide RowAgrees, Due;
    var t := Apply(true, s, Record(id, o));
    assert forall q, i :: Holds(t, q, i) <==> Holds(s, q, i);
    forall q | q in t.sessions
      ensures PassedAreDue(t.rows, t.sessions[q])
    {
      assert PassedAreDue(s.rows, s.sessions[q]) && !Holds(s, q, id);
    }
    RecordedAgrees(s.rows[id], s.history[id], o);
  }

  lemma InsertKeepsInvariant(s: State, a: Action)
    requires Invariant(s) && a.Insert?
    ensures Invariant(Apply(true, s, a))
  {
    var t := Apply(true, s, a);
    assert forall q, i :: Holds(t, q, i) <==> Holds(s, q, i);
    forall q | q in t.sessions
      ensures PassedAreDue(t.rows, t.sessions[q])
    {
      assert PassedAreDue(s.rows, s.sessions[q]);
    }
  }

  /** The remaining steps only move ids about inside one session. */
  lemma SessionStepKeepsInvariant(s: State, a: Action)
    requires Invariant(s) && Enabled(s, a)
    requires !a.Commit? && !a.Record? && !a.Insert?
    ensures Invariant(Apply(true, s, a))
  {
    var t := Apply(true, s, a);
    assert forall q, i :: Holds(t, q, i) ==> Holds(s, q, i) || (a.Lock? && q == a.who && i == a.id);
    forall q | q in t.sessions
      ensures PassedAreDue(t.rows, t.sessions[q])
    {
      if q in s.sessions {
        assert PassedAreDue(s.rows, s.sessions[q]);
      }
    }
  }

  lemma StepKeepsInvariant(s: State, a: Action)
    requires Invariant(s) && Enabled(s, a)
    ensures Invariant(Apply(true, s, a))
  {
    match a
    case Commit(who) => CommitKeepsInvariant(s, who);
    case Record(id, o) => RecordKeepsInvariant(s, id, o);
    case Insert(_, _, _, _) => InsertKeepsInvariant(s, a);
    case _ => SessionStepKeepsInvariant(s, a);
  }

  lemma {:induction false} RunKeepsInvariant(s: State, acts: seq<Action>)
    requires Invariant(s) && Runs(true, s, acts)
    ensures Invariant(After(true, s, acts))
    decreases |acts|
  {
    if acts != [] {
      StepKeepsInvariant(s, acts[0]);
      RunKeepsInvariant(Apply(true, s, acts[0]), acts[1..]);
    }
  }

  // ---------- one claim from its subquery to its commit ----------

  /** The claim is running with the instant and the stale period given, on rows among those it picked. */
  ghost predicate Running(s: State, who: nat, now: int, staleAfter: int, ids: set<nat>) {
    && who in s.sessions && s.sessions[who].now == now && s.sessions[who].staleAfter == staleAfter
    && s.sessions[who].todo + s.sessions[who].locked + s.sessions[who].stamped <= ids
  }

  lemma {:induction false} RunningOn(outer: bool, s: State, acts: seq<Action>, who: nat, now: int, staleAfter: int,
      ids: set<nat>)
    requires Runs(outer, s, acts) && Running(s, who, now, staleAfter, ids)
    requires Commit(who) !in acts && Abort(who) !in acts
    ensures Running(After(outer, s, acts), who, now, staleAfter, ids)
    decreases |acts|
  {
    if acts != [] {
      assert acts[0] in acts && forall a :: a in acts[1..] ==> a in acts;
      RunningOn(outer, Apply(outer, s, acts[0]), acts[1..], who, now, staleAfter, ids);
    }
  }

  /**
   * Whatever the others do while a claim runs, it writes at most its limit of rows, and each was due when
   * its subquery read the table.
   */
  lemma ClaimStaysWithinItsLimit(outer: bool, s: State, first: Action, acts: seq<Action>)
    requires first.Begin? && Runs(outer, s, [first] + acts)
    requires Commit(first.who) !in acts && Abort(first.who) !in acts
    ensures var t := After(outer, s, [first] + acts);
            && first.who in t.sessions && t.sessions[first.who].now == first.now
            && |t.sessions[first.who].stamped| <= EffectiveLimit(first.limit)
            && forall id :: id in t.sessions[first.who].stamped ==>
                 id < |s.rows| && Due(s.rows[id], first.now, first.now - first.staleAfter)
  {
    var u := Apply(outer, s, first);
    assert ([first] + acts)[1..] == acts;
    RunningOn(outer, u, acts, first.who, first.now, first.staleAfter, first.ids);
    SubsetIsSmaller(After(outer, u, acts).sessions[first.who].stamped, first.ids);
  }

  lemma {:induction false} SubsetIsSmaller(a: set<nat>, b: set<nat>)
    requires a <= b
    ensures |a| <= |b|
  {
    if a != {} {
      var x :| x in a;
      SubsetIsSmaller(a - {x}, b - {x});
    }
  }

  /** No claim can be kept from committing: it may skip what it has not locked and check what it has. */
  lemma {:induction false} ClaimCanCommit(outer: bool, s: State, who: nat) returns (acts: seq<Action>)
    requires who in s.sessions && forall id :: id in s.sessions[who].locked ==> id < |s.rows|
    ensures Runs(outer, s, acts + [Commit(who)]) && Commit(who) !in acts && Abort(who) !in acts
    decreases |s.sessions[who].todo| + |s.sessions[who].locked|
  {
    var c := s.sessions[who];
    if c.todo != {} {
      var id :| id in c.todo;
      var rest := ClaimCanCommit(outer, Apply(outer, s, Skip(who, id)), who);
      acts := [Skip(who, id)] + rest;
      assert (acts + [Commit(who)])[1..] == rest + [Commit(who)];
    } else if c.locked != {} {
      var id :| id in c.locked;
      var rest := ClaimCanCommit(outer, Apply(outer, s, Recheck(who, id)), who);
      acts := [Recheck(who, id)] + rest;
      assert (acts + [Commit(who)])[1..] == rest + [Commit(who)];
    } else {
      acts := [];
      assert ([] + [Commit(who)])[1..] == [];
    }
  }

  // ---------- every run from the empty table ----------

  /**
   * Lease safety. Whatever the interleaving, a delivery claimed twice with no result recorded in
   * between was claimed the second time at least that claim's stale period after the first.
   */
  lemma SuccessiveClaimsAreSpaced(acts: seq<Action>, id: nat, k: nat)
    requires Runs(true, EMPTY, acts)
    requires var h := After(true, EMPTY, acts).history;
             id < |h| && k + 1 < |h[id]| && h[id][k].Claimed? && h[id][k + 1].Claimed?
    ensures var h := After(true, EMPTY, acts).history[id];
            h[k].now + h[k + 1].staleAfter <= h[k + 1].now
  {
    RunKeepsInvariant(EMPTY, acts);
    var h := After(true, EMPTY, acts).history[id];
    assert Spaced(h);
    assert h[k + 1 - 1] == h[k];
  }

  /**
   * A row is what its history says, in every run: its status, code, message and retry time are those of the
   * last result, its claim that of the last event.
   */
  lemma RowTellsHistory(acts: seq<Action>, id: nat)
    requires Runs(true, EMPTY, acts) && id < |After(true, EMPTY, acts).rows|
    ensures var s := After(true, EMPTY, acts);
            |s.history| == |s.rows| && HistoryAgrees(s.rows[id], s.history[id])
              && ReportAgrees(s.rows[id], s.history[id])
  {
    RunKeepsInvariant(EMPTY, acts);
  }

  /**
   * Whatever the interleaving, nobody claims a delivery after it was delivered or given up, nor before the
   * retry time that the last refusal set.
   */
  lemma ClaimsWaitForRetry(acts: seq<Action>, id: nat, k: nat)
    requires Runs(true, EMPTY, acts)
    requires var h := After(true, EMPTY, acts).history; id < |h| && k < |h[id]| && h[id][k].Claimed?
    ensures var h := After(true, EMPTY, acts).history[id];
            && MayFollow(LastReport(h[..k]), h[k].now)
            && (k > 0 && h[k - 1].Reported? ==>
                  && h[k - 1].outcome.Refused? && h[k - 1].outcome.nextAttempt.Some?
                  && h[k - 1].outcome.nextAttempt.value <= h[k].now)
  {
    RunKeepsInvariant(EMPTY, acts);
    var s := After(true, EMPTY, acts);
    assert RowAgrees(s.rows[id], s.history[id]);
    assert k > 0 ==> s.history[id][..k][|s.history[id][..k]| - 1] == s.history[id][k - 1];
  }

  /** `attempts` counts the refused results recorded for the row, in every run. */
  lemma AttemptsCountRefusals(acts: seq<Action>, id: nat)
    requires Runs(true, EMPTY, acts) && id < |After(true, EMPTY, acts).rows|
    ensures var s := After(true, EMPTY, acts);
            |s.history| == |s.rows| && s.rows[id].attempts == Refusals(s.history[id])
  {
    RunKeepsInvariant(EMPTY, acts);
  }

  // ---------- why the condition is repeated ----------

  const BOTH_SNAPSHOT: seq<Action> := [Insert(0, "e", "p", 0), Begin(1, 10, 5, 0, {0}), Begin(2, 10, 5, 0, {0})]
  const EACH_COMMITS: seq<Action> := [Lock(1, 0), Recheck(1, 0), Commit(1), Lock(2, 0), Recheck(2, 0), Commit(2)]

  /**
   * The same nine steps, with and without the outer condition: without it two claimants receive one
   * delivery at the same instant, with it the second claimant's re-check drops the row.
   */
  lemma WithoutOuterConditionDoubleClaim(outer: bool)
    ensures Runs(outer, EMPTY, BOTH_SNAPSHOT + EACH_COMMITS)
    ensures After(outer, EMPTY, BOTH_SNAPSHOT + EACH_COMMITS).history
         == [if outer then [Claimed(1, 10, 5)] else [Claimed(1, 10, 5), Claimed(2, 10, 5)]]
  {
    var r := NewRow(0, "e", "p", 0);
    var c := Session(10, 5, {0}, {}, {});
    var s1 := State([r], map[], [[]]);
    var s2 := State([r], map[1 := c], [[]]);
    var s3 := State([r], map[1 := c, 2 := c], [[]]);
    var last := Replay(outer, r, c, s3);
    assert MayPick([r], 10, 5, 0, {0});
    Prepend(outer, s2, Begin(2, 10, 5, 0, {0}), s3, EACH_COMMITS, last);
    Prepend(outer, s1, Begin(1, 10, 5, 0, {0}), s2, [Begin(2, 10, 5, 0, {0})] + EACH_COMMITS, last);
    Prepend(outer, EMPTY, Insert(0, "e", "p", 0), s1,
      [Begin(1, 10, 5, 0, {0})] + ([Begin(2, 10, 5, 0, {0})] + EACH_COMMITS), last);
    assert BOTH_SNAPSHOT + EACH_COMMITS
        == [Insert(0, "e", "p", 0)] + ([Begin(1, 10, 5, 0, {0})] + ([Begin(2, 10, 5, 0, {0})] + EACH_COMMITS));
  }

  const SECOND_COMMITS: seq<Action> := [Lock(2, 0), Recheck(2, 0), Commit(2)]

  lemma Replay(outer: bool, r: Row, c: Session, s3: State) returns (last: State)
    requires r == NewRow(0, "e", "p", 0) && c == Session(10, 5, {0}, {}, {})
    requires s3 == State([r], map[1 := c, 2 := c], [[]])
    ensures Runs(outer, s3, EACH_COMMITS) && After(outer, s3, EACH_COMMITS) == last
    ensures last.history == [if outer then [Claimed(1, 10, 5)] else [Claimed(1, 10, 5), Claimed(2, 10, 5)]]
  {
    var mine := Session(10, 5, {}, {0}, {});
    var s4 := State([r], map[1 := mine, 2 := c], [[]]);
    var s5 := State([r], map[1 := Session(10, 5, {}, {}, {0}), 2 := c], [[]]);
    var r', h := Stamped(r, 10), [Claimed(1, 10, 5)];
    var s6 := State([r'], map[2 := c], [h]);
    last := ReplaySecond(outer, r', c, s6);
    assert c.todo - {0} == {} && c.locked + {0} == {0} && mine.locked - {0} == {} && mine.stamped + {0} == {0};
    var none: seq<Event> := [];
    assert none + [Claimed(1, 10, 5)] == h;
    assert CommitRows([r], s5.sessions[1]) == [r'] && CommitHistory([[]], 1, s5.sessions[1]) == [h];
    Prepend(outer, s5, Commit(1), s6, SECOND_COMMITS, last);
    Prepend(outer, s4, Recheck(1, 0), s5, [Commit(1)] + SECOND_COMMITS, last);
    assert Unlocked(s3, 0);
    Prepend(outer, s3, Lock(1, 0), s4, [Recheck(1, 0)] + ([Commit(1)] + SECOND_COMMITS), last);
    assert EACH_COMMITS == [Lock(1, 0)] + ([Recheck(1, 0)] + ([Commit(1)] + SECOND_COMMITS));
  }

  lemma ReplaySecond(outer: bool, r: Row, c: Session, s6: State) returns (last: State)
    requires r.claimedAt == Some(10) && Stamped(r, 10) == r && c == Session(10, 5, {0}, {}, {})
    requires s6 == State([r], map[2 := c], [[Claimed(1, 10, 5)]])
    ensures Runs(outer, s6, SECOND_COMMITS) && After(outer, s6, SECOND_COMMITS) == last
    ensures last.history == [if outer then [Claimed(1, 10, 5)] else [Claimed(1, 10, 5), Claimed(2, 10, 5)]]
  {
    var mine := Session(10, 5, {}, {0}, {});
    var h := [Claimed(1, 10, 5)];
    var s7 := State([r], map[2 := mine], [h]);
    var s8 := State([r], map[2 := Session(10, 5, {}, {}, if outer then {} else {0})], [h]);
    last := State([r], map[], [if outer then h else [Claimed(1, 10, 5), Claimed(2, 10, 5)]]);
    assert c.todo - {0} == {} && c.locked + {0} == {0} && mine.locked - {0} == {} && mine.stamped + {0} == {0};
    assert h + [Claimed(2, 10, 5)] == [Claimed(1, 10, 5), Claimed(2, 10, 5)];
    assert CommitRows([r], s8.sessions[2]) == [r] && CommitHistory([h], 2, s8.sessions[2]) == last.history;
    Prepend(outer, s8, Commit(2), last, [], last);
    assert [Commit(2)] + [] == [Commit(2)];
    Prepend(outer, s7, Recheck(2, 0), s8, [Commit(2)], last);
    Prepend(outer, s6, Lock(2, 0), s7, [Recheck(2, 0)] + [Commit(2)], last);
    assert SECOND_COMMITS == [Lock(2, 0)] + ([Recheck(2, 0)] + [Commit(2)]);
  }

  lemma Prepend(outer: bool, s: State, a: Action, t: State, acts: seq<Action>, last: State)
    requires Enabled(s, a) && Apply(outer, s, a) == t
    requires Runs(outer, t, acts) && After(outer, t, acts) == last
    ensures Runs(outer, s, [a] + acts) && After(outer, s, [a] + acts) == last
  {
    assert ([a] + acts)[1..] == acts;
  }
}
