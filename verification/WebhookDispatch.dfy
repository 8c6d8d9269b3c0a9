/**
 * Dispatchers at work: a claim that commits is a ticket, and a ticket is answered at most once with the
 * outcome of one HTTP attempt. Nothing in the source keeps an answer from coming late, so the first half
 * says what late answers do; the second half says what holds when every answer finds its own claim.
 * `stale`, `maxAttempts` and `backoff` are the dispatcher's ClaimStale, MaxAttempts and Backoff options;
 * times are nanoseconds.
 */
module WebhookDispatch {
  import opened Common
  import opened WebhookRows
  import opened WebhookProtocol

  /** A committed claim that has not been answered; `at` counts the row's events up to the claim. */
  datatype Ticket = Ticket(who: nat, id: nat, now: int, attempts: nat, at: nat)

  datatype World = World(db: State, clock: int, tickets: set<Ticket>)

  datatype Move =
    | Tick(to: int)
    | Db(a: Action)
    | Answer(ticket: Ticket, outcome: Outcome)
    | Drop(ticket: Ticket) // the dispatcher died, or the webhook or its key is gone

  datatype Options = Options(stale: int, maxAttempts: nat, backoff: int)

  const TWO_TO_THE_63: int := 0x8000_0000_0000_0000
  const LONGEST_DELAY: int := 15 * 60 * 1_000_000_000

  /** What withDefaults leaves. */
  predicate ValidOptions(o: Options) {
    o.stale > 0 && o.maxAttempts > 0 && 0 < o.backoff < TWO_TO_THE_63
  }

  function Pow2(n: nat): (r: nat)
    ensures r >= 1
  {
    if n == 0 then 1 else 2 * Pow2(n - 1)
  }

  /** A value as it comes out of 64-bit arithmetic. */
  function Wrapped(v: int): int {
    var m := v % (2 * TWO_TO_THE_63);
    if m < TWO_TO_THE_63 then m else m - 2 * TWO_TO_THE_63
  }

  /** Two's complement: the one value of that range that differs by a multiple of 2 to the 64. */
  lemma WrappedExact(v: int, r: int)
    ensures r == Wrapped(v) <==>
            && -TWO_TO_THE_63 <= r < TWO_TO_THE_63 && (v - r) % 0x1_0000_0000_0000_0000 == 0
  {
  }

  /** The wait after the nth failure: the backoff shifted left, at most a quarter of an hour. */
  function Delay(backoff: int, n: nat): int
    requires n > 0
  {
    var d := Wrapped(backoff * Pow2(n - 1));
    if d > LONGEST_DELAY then LONGEST_DELAY else d
  }

  /** `recordFailure` retries while attempts remain, after a delay counted from when it ran. */
  predicate FollowsRetryRule(o: Options, clock: int, t: Ticket, outcome: Outcome) {
    outcome.Refused? ==>
      var d := Delay(o.backoff, t.attempts + 1);
      && (outcome.nextAttempt.Some? <==> t.attempts + 1 < o.maxAttempts)
      && (outcome.nextAttempt.Some? ==> t.now + d <= outcome.nextAttempt.value <= clock + d)
  }

  predicate Allowed(o: Options, w: World, m: Move) {
    match m
    case Tick(to) => w.clock <= to
    case Db(a) =>
      && Enabled(w.db, a) && !a.Record?
      && (a.Begin? ==> a.now <= w.clock && a.staleAfter == o.stale)
      && (a.Commit? ==> forall id :: id in w.db.sessions[a.who].stamped ==> id < |w.db.rows| && id < |w.db.history|)
    case Answer(t, outcome) =>
      t in w.tickets && FollowsRetryRule(o, w.clock, t, outcome) && Enabled(w.db, Record(t.id, outcome))
    case Drop(t) => t in w.tickets
  }

  function NewTickets(s: State, who: nat): set<Ticket>
    requires who in s.sessions && forall id :: id in s.sessions[who].stamped ==> id < |s.rows| && id < |s.history|
  {
    set id | id in s.sessions[who].stamped ::
      Ticket(who, id, s.sessions[who].now, s.rows[id].attempts, |s.history[id]| + 1)
  }

  function Perform(o: Options, w: World, m: Move): World
    requires Allowed(o, w, m)
  {
    match m
    case Tick(to) => w.(clock := to)
    case Db(a) =>
      w.(db := Apply(true, w.db, a),
         tickets := if a.Commit? then w.tickets + NewTickets(w.db, a.who) else w.tickets)
    case Answer(t, outcome) =>
      w.(db := Apply(true, w.db, Record(t.id, outcome)), tickets := w.tickets - {t})
    case Drop(t) => w.(tickets := w.tickets - {t})
  }

  predicate Lives(o: Options, w: World, moves: seq<Move>)
    decreases |moves|
  {
    moves == [] || (Allowed(o, w, moves[0]) && Lives(o, Perform(o, w, moves[0]), moves[1..]))
  }

  function Finally(o: Options, w: World, moves: seq<Move>): World
    requires Lives(o, w, moves)
    decreases |moves|
  {
    if moves == [] then w else Finally(o, Perform(o, w, moves[0]), moves[1..])
  }

  // ---------- what holds however late the answers come ----------

  /** Nothing has happened to the row since this claim: its `claimed_at` is still the ticket's. */
  predicate Current(w: World, t: Ticket) {
    t.id < |w.db.history| && |w.db.history[t.id]| == t.at
  }

  ghost predicate TicketKnown(w: World, t: Ticket) {
    && t.id < |w.db.rows| == |w.db.history| && t.now <= w.clock
    && 0 < t.at <= |w.db.history[t.id]| && w.db.history[t.id][t.at - 1].Claimed?
    && (Current(w, t) ==>
          w.db.rows[t.id].claimedAt == Some(t.now) && !Final(w.db.rows[t.id]) && w.db.rows[t.id].attempts == t.attempts)
  }

  /** No two tickets are for one claim. */
  ghost predicate TicketsApart(w: World) {
    forall t, u :: t in w.tickets && u in w.tickets && t.id == u.id && t.at == u.at ==> t == u
  }

  ghost predicate FinalIsUnclaimed(r: Row) {
    Final(r) ==> r.claimedAt.None? && (r.status.Delivered? ==> r.lastError == "")
  }

  ghost predicate Consistent(w: World) {
    && Invariant(w.db) && TicketsApart(w)
    && (forall who :: who in w.db.sessions ==> w.db.sessions[who].now <= w.clock)
    && (forall t :: t in w.tickets ==> TicketKnown(w, t))
    && (forall i :: 0 <= i < |w.db.rows| ==> FinalIsUnclaimed(w.db.rows[i]))
  }

  lemma CommitKeepsConsistent(o: Options, w: World, who: nat)
    requires Consistent(w) && Allowed(o, w, Db(Commit(who)))
    ensures Consistent(Perform(o, w, Db(Commit(who))))
  {
    hide ReportAgrees, Waited, Spaced, Refusals, SameContent;
    var v := Perform(o, w, Db(Commit(who)));
    StepKeepsInvariant(w.db, Commit(who));
    assert PassedAreDue(w.db.rows, w.db.sessions[who]);
    forall t | t in v.tickets
      ensures TicketKnown(v, t)
      ensures t in w.tickets ==> t.at <= |w.db.history[t.id]|
      ensures t !in w.tickets ==> t.at == |w.db.history[t.id]| + 1
    {
      assert t in w.tickets ==> TicketKnown(w, t);
    }
  }

  lemma AnswerKeepsConsistent(o: Options, w: World, t: Ticket, outcome: Outcome)
    requires Consistent(w) && Allowed(o, w, Answer(t, outcome))
    ensures Consistent(Perform(o, w, Answer(t, outcome)))
  {
    var v := Perform(o, w, Answer(t, outcome));
    StepKeepsInvariant(w.db, Record(t.id, outcome));
    forall u | u in v.tickets
      ensures TicketKnown(v, u)
    {
      assert TicketKnown(w, u);
    }
  }

  lemma OtherMovesKeepConsistent(o: Options, w: World, m: Move)
    requires Consistent(w) && Allowed(o, w, m) && !m.Answer? && !(m.Db? && m.a.Commit?)
    ensures Consistent(Perform(o, w, m))
  {
    var v := Perform(o, w, m);
    if m.Db? {
      StepKeepsInvariant(w.db, m.a);
    }
    forall t | t in v.tickets
      ensures TicketKnown(v, t)
    {
      assert TicketKnown(w, t);
    }
  }

  lemma MoveKeepsConsistent(o: Options, w: World, m: Move)
    requires Consistent(w) && Allowed(o, w, m)
    ensures Consistent(Perform(o, w, m))
  {
    hide Consistent, Allowed, Perform;
    match m
    case Answer(t, outcome) => AnswerKeepsConsistent(o, w, t, outcome);
    case Db(Commit(who)) => CommitKeepsConsistent(o, w, who);
    case _ => OtherMovesKeepConsistent(o, w, m);
  }

  lemma {:induction false} LifeKeepsConsistent(o: Options, w: World, moves: seq<Move>)
    requires Consistent(w) && Lives(o, w, moves)
    ensures Consistent(Finally(o, w, moves))
    decreases |moves|
  {
    hide Consistent, Allowed, Perform;
    if moves != [] {
      MoveKeepsConsistent(o, w, moves[0]);
      LifeKeepsConsistent(o, Perform(o, w, moves[0]), moves[1..]);
    }
  }

  // ---------- a claim is answered at most once ----------

  /** The claim is of the past, and it has been answered or dropped. */
  ghost predicate Over(w: World, t: Ticket) {
    t !in w.tickets && t.id < |w.db.history| && t.at <= |w.db.history[t.id]|
  }

  lemma {:induction false} OverForEver(o: Options, w: World, moves: seq<Move>, t: Ticket)
    requires Consistent(w) && Lives(o, w, moves) && Over(w, t)
    ensures Over(Finally(o, w, moves), t)
    decreases |moves|
  {
    hide Consistent;
    if moves != [] {
      MoveKeepsConsistent(o, w, moves[0]);
      OverForEver(o, Perform(o, w, moves[0]), moves[1..], t);
    }
  }

  /** Once a claim was answered, or its dispatcher died, no later move answers it. */
  lemma AnsweredAtMostOnce(o: Options, w: World, m: Move, moves: seq<Move>, outcome: Outcome)
    requires Consistent(w) && Allowed(o, w, m) && (m.Answer? || m.Drop?)
    requires Lives(o, Perform(o, w, m), moves)
    ensures var v := Finally(o, Perform(o, w, m), moves);
            m.ticket !in v.tickets && !Allowed(o, v, Answer(m.ticket, outcome))
  {
    assert TicketKnown(w, m.ticket);
    MoveKeepsConsistent(o, w, m);
    OverForEver(o, Perform(o, w, m), moves, m.ticket);
  }

  // ---------- when a final row changes ----------

  /** The outcome writes something else than what the final row holds. */
  predicate Differs(r: Row, outcome: Outcome) {
    match outcome
    case Accepted(http) => !r.status.Delivered? || r.lastStatus != http
    case Refused(_, _, _) => true
  }

  /**
   * A move changes a delivered or dead row exactly if it is an answer to a claim of it that the row no
   * longer carries, with an outcome that writes a retry or another final row.
   */
  lemma FinalRowChangesIff(o: Options, w: World, m: Move, id: nat)
    requires Consistent(w) && Allowed(o, w, m) && id < |w.db.rows| && Final(w.db.rows[id])
    ensures id < |Perform(o, w, m).db.rows|
    ensures Perform(o, w, m).db.rows[id] != w.db.rows[id]
       <==> && m.Answer? && m.ticket.id == id && w.db.rows[id].claimedAt != Some(m.ticket.now)
            && Differs(w.db.rows[id], m.outcome)
  {
    match m
    case Answer(t, _) => assert TicketKnown(w, t) && FinalIsUnclaimed(w.db.rows[id]);
    case Db(Commit(who)) => assert PassedAreDue(w.db.rows, w.db.sessions[who]);
    case _ =>
  }

  predicate Outstanding(w: World, id: nat) {
    exists t :: t in w.tickets && t.id == id
  }

  lemma SettledStays(o: Options, w: World, m: Move, id: nat)
    requires Consistent(w) && Allowed(o, w, m)
    requires id < |w.db.rows| && Final(w.db.rows[id]) && !Outstanding(w, id)
    ensures var v := Perform(o, w, m);
            id < |v.db.rows| && v.db.rows[id] == w.db.rows[id] && !Outstanding(v, id)
  {
    FinalRowChangesIff(o, w, m, id);
    if m.Db? && m.a.Commit? {
      assert PassedAreDue(w.db.rows, w.db.sessions[m.a.who]);
    }
  }

  lemma {:induction false} SettledForEver(o: Options, w: World, moves: seq<Move>, id: nat)
    requires Consistent(w) && Lives(o, w, moves)
    requires id < |w.db.rows| && Final(w.db.rows[id]) && !Outstanding(w, id)
    ensures var v := Finally(o, w, moves); id < |v.db.rows| && v.db.rows[id] == w.db.rows[id]
    decreases |moves|
  {
    hide Consistent, Allowed, Perform, Outstanding;
    if moves != [] {
      MoveKeepsConsistent(o, w, moves[0]);
      SettledStays(o, w, moves[0], id);
      SettledForEver(o, Perform(o, w, moves[0]), moves[1..], id);
    }
  }

  /** A late refusal, by the retry rule. */
  function Late(o: Options, clock: int, t: Ticket): Outcome {
    Refused(500, "late", if t.attempts + 1 < o.maxAttempts then Some(clock + Delay(o.backoff, t.attempts + 1))
      else None)
  }

  lemma AnswerAlone(o: Options, w: World, t: Ticket)
    requires Consistent(w) && t in w.tickets && Unlocked(w.db, t.id) && Final(w.db.rows[t.id])
    ensures Lives(o, w, [Answer(t, Late(o, w.clock, t))])
    ensures var v := Finally(o, w, [Answer(t, Late(o, w.clock, t))]);
            t.id < |v.db.rows| && v.db.rows[t.id] != w.db.rows[t.id]
  {
    var m := Answer(t, Late(o, w.clock, t));
    assert TicketKnown(w, t) && Allowed(o, w, m);
    FinalRowChangesIff(o, w, m, t.id);
    assert [m][1..] == [];
  }

  /** A claimant that holds the row can give up, and then the late answer gets through. */
  lemma LateAnswerGetsThrough(o: Options, w: World, t: Ticket) returns (moves: seq<Move>)
    requires Consistent(w) && t in w.tickets && t.id < |w.db.rows| && Final(w.db.rows[t.id])
    ensures Lives(o, w, moves)
    ensures var v := Finally(o, w, moves); t.id < |v.db.rows| && v.db.rows[t.id] != w.db.rows[t.id]
  {
    var last := Answer(t, Late(o, w.clock, t));
    if Unlocked(w.db, t.id) {
      moves := [last];
      AnswerAlone(o, w, t);
    } else {
      var who :| who in w.db.sessions && Holds(w.db, who, t.id);
      var give := Db(Abort(who));
      var v := Perform(o, w, give);
      MoveKeepsConsistent(o, w, give);
      forall q | q in v.db.sessions
        ensures !Holds(v.db, q, t.id)
      {
        assert !Holds(w.db, q, t.id);
      }
      AnswerAlone(o, v, t);
      moves := [give, last];
      assert moves[1..] == [last];
    }
  }

  /**
   * A delivered or dead row stays as it is in every future exactly if no claim of it is still to be
   * answered.
   */
  lemma FinalIsFinalIff(o: Options, w: World, id: nat)
    requires Consistent(w) && id < |w.db.rows| && Final(w.db.rows[id])
    ensures (forall moves :: Lives(o, w, moves) ==>
               id < |Finally(o, w, moves).db.rows| && Finally(o, w, moves).db.rows[id] == w.db.rows[id])
       <==> !Outstanding(w, id)
  {
    if Outstanding(w, id) {
      var t :| t in w.tickets && t.id == id;
      var moves := LateAnswerGetsThrough(o, w, t);
      assert Lives(o, w, moves);
    } else {
      forall moves | Lives(o, w, moves)
        ensures id < |Finally(o, w, moves).db.rows| && Finally(o, w, moves).db.rows[id] == w.db.rows[id]
      {
        SettledForEver(o, w, moves, id);
      }
    }
  }

  // ---------- answers that find their own claim ----------

  /** Every answer finds its row as the claim left it. */
  predicate Attentive(o: Options, w: World, moves: seq<Move>)
    decreases |moves|
  {
    moves == []
    || (&& Allowed(o, w, moves[0]) && (moves[0].Answer? ==> Current(w, moves[0].ticket))
        && Attentive(o, Perform(o, w, moves[0]), moves[1..]))
  }

  ghost predicate AttemptsBounded(o: Options, r: Row) {
    match r.status
    case Pending => r.attempts == 0
    case Failed => r.attempts < o.maxAttempts
    case Delivered => r.attempts < o.maxAttempts
    case Dead => r.attempts == o.maxAttempts
  }

  /** Every recorded result answers the claim just before it. */
  ghost predicate Answered(h: seq<Event>) {
    forall k :: 0 <= k < |h| && h[k].Reported? ==> 0 < k && h[k - 1].Claimed?
  }

  ghost predicate Paced(o: Options, w: World) {
    |w.db.history| == |w.db.rows|
    && forall i :: 0 <= i < |w.db.rows| ==> AttemptsBounded(o, w.db.rows[i]) && Answered(w.db.history[i])
  }

  lemma MoveKeepsPaced(o: Options, w: World, m: Move)
    requires ValidOptions(o) && Consistent(w) && Paced(o, w) && Allowed(o, w, m)
    requires m.Answer? ==> Current(w, m.ticket)
    ensures Paced(o, Perform(o, w, m))
  {
    hide ReportAgrees, Waited, Spaced, SameContent, Delay;
    if m.Answer? {
      assert TicketKnown(w, m.ticket);
    } else if m.Db? && m.a.Commit? {
      assert PassedAreDue(w.db.rows, w.db.sessions[m.a.who]);
    }
  }

  lemma {:induction false} AttentiveKeepsPaced(o: Options, w: World, moves: seq<Move>)
    requires ValidOptions(o) && Consistent(w) && Paced(o, w) && Attentive(o, w, moves)
    ensures Lives(o, w, moves) && Consistent(Finally(o, w, moves)) && Paced(o, Finally(o, w, moves))
    decreases |moves|
  {
    hide Consistent, Paced, Allowed, Perform, Current;
    if moves != [] {
      MoveKeepsConsistent(o, w, moves[0]);
      MoveKeepsPaced(o, w, moves[0]);
      AttentiveKeepsPaced(o, Perform(o, w, moves[0]), moves[1..]);
    }
  }

  /** With such answers `delivered` and `dead` are absorbing: no later move of anybody changes the row. */
  lemma {:induction false} FinalRowsAreAbsorbing(o: Options, w: World, moves: seq<Move>, id: nat)
    requires Consistent(w) && Attentive(o, w, moves)
    requires id < |w.db.rows| && Final(w.db.rows[id])
    ensures Lives(o, w, moves)
    ensures var v := Finally(o, w, moves); id < |v.db.rows| && v.db.rows[id] == w.db.rows[id]
    decreases |moves|
  {
    hide Consistent, Allowed, Perform;
    if moves != [] {
      var m := moves[0];
      TicketOfAnswer(o, w, m);
      if m.Answer? {
        CurrentIsNotFinal(w, m.ticket);
      }
      FinalRowChangesIff(o, w, m, id);
      MoveKeepsConsistent(o, w, m);
      FinalRowsAreAbsorbing(o, Perform(o, w, m), moves[1..], id);
    }
  }

  lemma CurrentIsNotFinal(w: World, t: Ticket)
    requires Consistent(w)
    ensures t in w.tickets && Current(w, t) ==> t.id < |w.db.rows| && !Final(w.db.rows[t.id])
  {
    assert t in w.tickets ==> TicketKnown(w, t);
  }

  /**
   * In every such life each result answers the claim just before it, a delivery is refused at most
   * `maxAttempts` times, and it is dead exactly when it has been refused that often.
   */
  lemma AttemptsNeverExceedTheMaximum(o: Options, start: int, moves: seq<Move>, id: nat)
    requires ValidOptions(o) && Attentive(o, World(EMPTY, start, {}), moves)
    ensures Lives(o, World(EMPTY, start, {}), moves)
    ensures var v := Finally(o, World(EMPTY, start, {}), moves).db;
            id < |v.rows| ==>
              && |v.history| == |v.rows| && Answered(v.history[id])
              && Refusals(v.history[id]) <= o.maxAttempts
              && (v.rows[id].status.Dead? <==> Refusals(v.history[id]) == o.maxAttempts)
  {
    AttentiveKeepsPaced(o, World(EMPTY, start, {}), moves);
    var v := Finally(o, World(EMPTY, start, {}), moves).db;
    if id < |v.rows| {
      assert AttemptsBounded(o, v.rows[id]) && RowAgrees(v.rows[id], v.history[id]);
    }
  }

  // ---------- answers within the stale period ----------

  predicate Fresh(o: Options, clock: int, t: Ticket) {
    clock < t.now + o.stale
  }

  /** Every answer comes before its claim is stale. */
  predicate Prompt(o: Options, w: World, moves: seq<Move>)
    decreases |moves|
  {
    moves == []
    || (&& Allowed(o, w, moves[0]) && (moves[0].Answer? ==> Fresh(o, w.clock, moves[0].ticket))
        && Prompt(o, Perform(o, w, moves[0]), moves[1..]))
  }

  ghost predicate Leased(o: Options, w: World) {
    && (forall who :: who in w.db.sessions ==> w.db.sessions[who].staleAfter == o.stale)
    && (forall t :: t in w.tickets && Fresh(o, w.clock, t) ==> Current(w, t))
  }

  lemma MoveKeepsLeased(o: Options, w: World, m: Move)
    requires Consistent(w) && Leased(o, w) && Allowed(o, w, m)
    requires m.Answer? ==> Fresh(o, w.clock, m.ticket)
    ensures Leased(o, Perform(o, w, m))
  {
    var v := Perform(o, w, m);
    forall t | t in v.tickets && Fresh(o, v.clock, t)
      ensures Current(v, t)
    {
      assert t in w.tickets ==> TicketKnown(w, t);
      if m.Db? && m.a.Commit? {
        assert PassedAreDue(w.db.rows, w.db.sessions[m.a.who]);
      }
    }
  }

  /** Prompt dispatchers always find their own claim, so all of the above holds of them. */
  lemma {:induction false} PromptIsAttentive(o: Options, w: World, moves: seq<Move>)
    requires Consistent(w) && Leased(o, w) && Prompt(o, w, moves)
    ensures Attentive(o, w, moves)
    decreases |moves|
  {
    hide Consistent, Allowed, Perform, Current, Fresh;
    if moves != [] {
      var m := moves[0];
      MoveKeepsConsistent(o, w, m);
      MoveKeepsLeased(o, w, m);
      PromptIsAttentive(o, Perform(o, w, m), moves[1..]);
      assert m.Answer? ==> m.ticket in w.tickets by {
        TicketOfAnswer(o, w, m);
      }
    }
  }

  lemma TicketOfAnswer(o: Options, w: World, m: Move)
    requires Allowed(o, w, m)
    ensures m.Answer? ==> m.ticket in w.tickets
  {
  }

  /** A tick answers its batch in sequence: the kth delivery takes `ds[k]` and ends in `outs[k]`. */
  function BatchMoves(clock: int, ts: seq<Ticket>, ds: seq<int>, outs: seq<Outcome>): seq<Move>
    requires |ts| == |ds| == |outs|
    decreases |ts|
  {
    if ts == [] then []
    else [Tick(clock + ds[0])] + ([Answer(ts[0], outs[0])] + BatchMoves(clock + ds[0], ts[1..], ds[1..], outs[1..]))
  }

  /** How a batch may go: no delivery takes longer than the HTTP timeout, and every answer is recorded. */
  ghost predicate BatchGoes(o: Options, w: World, ts: seq<Ticket>, ds: seq<int>, outs: seq<Outcome>, timeout: int) {
    && |ts| == |ds| == |outs| && (forall k :: 0 <= k < |ds| ==> 0 <= ds[k] <= timeout)
    && Lives(o, w, BatchMoves(w.clock, ts, ds, outs))
  }

  /** One claim of these tickets, made at `now`; no claim statement is in flight. */
  ghost predicate IsBatch(w: World, ts: seq<Ticket>, now: int) {
    && w.db.sessions == map[] && |w.db.history| == |w.db.rows| && Distinct(ts)
    && (forall t :: t in ts ==> t in w.tickets && t.now == now && t.id < |w.db.rows|)
  }

  lemma BatchStep(o: Options, w: World, m: Move, rest: seq<Move>)
    ensures Lives(o, w, [m] + rest) <==> Allowed(o, w, m) && Lives(o, Perform(o, w, m), rest)
    ensures Prompt(o, w, [m] + rest)
       <==> Allowed(o, w, m) && (m.Answer? ==> Fresh(o, w.clock, m.ticket)) && Prompt(o, Perform(o, w, m), rest)
  {
    assert ([m] + rest)[1..] == rest;
  }

  lemma {:induction false} BatchThatFits(o: Options, w: World, ts: seq<Ticket>, ds: seq<int>, outs: seq<Outcome>,
      timeout: int, now: int)
    requires BatchGoes(o, w, ts, ds, outs, timeout) && forall t :: t in ts ==> t.now == now
    requires ts == [] || w.clock + |ts| * timeout < now + o.stale
    ensures Prompt(o, w, BatchMoves(w.clock, ts, ds, outs))
    decreases |ts|
  {
    hide Allowed;
    if ts != [] {
      var tick, answer := Tick(w.clock + ds[0]), Answer(ts[0], outs[0]);
      var rest := BatchMoves(w.clock + ds[0], ts[1..], ds[1..], outs[1..]);
      BatchStep(o, w, tick, [answer] + rest);
      var v := Perform(o, w, tick);
      BatchStep(o, v, answer, rest);
      assert |ts| * timeout == timeout + |ts[1..]| * timeout;
      NoTimeIsNegative(|ts[1..]|, timeout);
      BatchThatFits(o, Perform(o, v, answer), ts[1..], ds[1..], outs[1..], timeout, now);
    }
  }

  lemma NoTimeIsNegative(n: nat, timeout: int)
    requires timeout >= 0
    ensures n * timeout >= 0
  {
  }

  /** Every delivery takes the whole timeout and succeeds. */
  function Slow(n: nat, timeout: int): seq<int> {
    seq(n, i => timeout)
  }

  function AllAccepted(n: nat): seq<Outcome> {
    seq(n, i => Accepted(200))
  }

  lemma AcceptedAllowed(o: Options, w: World, ts: seq<Ticket>, now: int, timeout: int)
    requires timeout >= 0 && ts != [] && IsBatch(w, ts, now)
    ensures var v := w.(clock := w.clock + timeout);
            && Allowed(o, w, Tick(v.clock)) && Perform(o, w, Tick(v.clock)) == v
            && Allowed(o, v, Answer(ts[0], Accepted(200)))
            && IsBatch(Perform(o, v, Answer(ts[0], Accepted(200))), ts[1..], now)
            && Perform(o, v, Answer(ts[0], Accepted(200))).clock == v.clock
  {
    var v := w.(clock := w.clock + timeout);
    assert ts[0] in ts && Unlocked(v.db, ts[0].id);
    forall t | t in ts[1..]
      ensures t in ts && t != ts[0]
    {
      var i :| 0 <= i < |ts[1..]| && ts[1..][i] == t;
      assert ts[i + 1] == t;
    }
    assert forall i :: 0 <= i < |ts[1..]| ==> ts[1..][i] == ts[i + 1];
  }

  lemma {:induction false} SlowBatch(o: Options, w: World, ts: seq<Ticket>, now: int, timeout: int)
    requires timeout >= 0 && IsBatch(w, ts, now)
    ensures BatchGoes(o, w, ts, Slow(|ts|, timeout), AllAccepted(|ts|), timeout)
    ensures ts != [] && Prompt(o, w, BatchMoves(w.clock, ts, Slow(|ts|, timeout), AllAccepted(|ts|))) ==>
              w.clock + |ts| * timeout < now + o.stale
    decreases |ts|
  {
    hide Allowed, IsBatch;
    if ts != [] {
      var n := |ts| - 1;
      var tick, answer := Tick(w.clock + timeout), Answer(ts[0], Accepted(200));
      assert Slow(|ts|, timeout)[1..] == Slow(n, timeout) && AllAccepted(|ts|)[1..] == AllAccepted(n);
      var rest := BatchMoves(w.clock + timeout, ts[1..], Slow(n, timeout), AllAccepted(n));
      AcceptedAllowed(o, w, ts, now, timeout);
      var v := Perform(o, w, tick);
      BatchStep(o, w, tick, [answer] + rest);
      BatchStep(o, v, answer, rest);
      FirstOfBatch(w, ts, now);
      assert |ts| * timeout == timeout + n * timeout;
      SlowBatch(o, Perform(o, v, answer), ts[1..], now, timeout);
    }
  }

  lemma FirstOfBatch(w: World, ts: seq<Ticket>, now: int)
    requires ts != [] && IsBatch(w, ts, now)
    ensures ts[0].now == now
  {
    assert ts[0] in ts;
  }

  /**
   * However long the deliveries of a batch take, within the HTTP timeout, all its answers come before their
   * claim is stale exactly if the whole batch fits what is left of the stale period. The defaults, a
   * hundred deliveries of ten seconds against two minutes, do not.
   */
  lemma BatchIsPromptIff(o: Options, w: World, ts: seq<Ticket>, now: int, timeout: int)
    requires timeout >= 0 && IsBatch(w, ts, now)
    ensures (forall ds, outs :: BatchGoes(o, w, ts, ds, outs, timeout) ==>
      Prompt(o, w, BatchMoves(w.clock, ts, ds, outs)))
       <==> ts == [] || w.clock + |ts| * timeout < now + o.stale
  {
    hide BatchGoes, Prompt, BatchMoves;
    SlowBatch(o, w, ts, now, timeout);
    if ts == [] || w.clock + |ts| * timeout < now + o.stale {
      forall ds, outs | BatchGoes(o, w, ts, ds, outs, timeout)
        ensures |ts| == |ds| == |outs| && Prompt(o, w, BatchMoves(w.clock, ts, ds, outs))
      {
        BatchLengths(o, w, ts, ds, outs, timeout);
        assert forall t :: t in ts ==> t.now == now;
        BatchThatFits(o, w, ts, ds, outs, timeout, now);
      }
    }
  }

  lemma BatchLengths(o: Options, w: World, ts: seq<Ticket>, ds: seq<int>, outs: seq<Outcome>, timeout: int)
    requires BatchGoes(o, w, ts, ds, outs, timeout)
    ensures |ts| == |ds| == |outs|
  {
  }

  // ---------- how long a failed delivery waits ----------

  /** What the option says: the backoff doubled with every failure, up to a quarter of an hour. */
  function Doubled(backoff: int, n: nat): int
    requires n > 0
  {
    var d := backoff * Pow2(n - 1);
    if d > 900_000_000_000 then 900_000_000_000 else d
  }

  /**
   * The nth failure waits what the option says exactly if doubling has not left 64 bits by then, or what is
   * left of it happens to be more than the quarter of an hour.
   */
  lemma DelayIsDoubledIff(backoff: int, n: nat)
    requires 0 < backoff && n > 0
    ensures Delay(backoff, n) == Doubled(backoff, n)
       <==> backoff * Pow2(n - 1) < TWO_TO_THE_63 || Wrapped(backoff * Pow2(n - 1)) >= LONGEST_DELAY
  {
    Positive(backoff, Pow2(n - 1));
  }

  lemma Positive(a: int, b: int)
    requires a > 0 && b > 0
    ensures a * b > 0
  {
  }

  lemma {:induction false} PowersMultiply(a: nat, b: nat)
    ensures Pow2(a + b) == Pow2(a) * Pow2(b)
  {
    if a > 0 {
      PowersMultiply(a - 1, b);
    }
  }

  /** With the default backoff the thirtieth failure would be retried at once: its delay is negative. */
  lemma ThirtiethFailureWaitsNothing()
    ensures var backoff := 30 * 1_000_000_000;
            Delay(backoff, 30) < 0 && Doubled(backoff, 30) == LONGEST_DELAY
  {
    PowersMultiply(20, 9);
    PowersMultiply(10, 10);
    assert Pow2(5) == 32 && Pow2(9) == 512 && Pow2(10) == 1024;
  }

  // ---------- a late answer, step by step ----------

  lemma {:induction false} LivesOn(o: Options, w: World, a: seq<Move>, b: seq<Move>)
    requires Lives(o, w, a) && Lives(o, Finally(o, w, a), b)
    ensures Lives(o, w, a + b) && Finally(o, w, a + b) == Finally(o, Finally(o, w, a), b)
    decreases |a|
  {
    hide Allowed, Perform;
    if a == [] {
      assert a + b == b;
    } else {
      assert (a + b)[1..] == a[1..] + b;
      LivesOn(o, Perform(o, w, a[0]), a[1..], b);
    }
  }

  lemma OneMove(o: Options, w: World, m: Move)
    requires Allowed(o, w, m)
    ensures Lives(o, w, [m]) && Finally(o, w, [m]) == Perform(o, w, m)
  {
    assert [m][1..] == [];
  }

  function ClaimMoves(o: Options, who: nat, now: int): seq<Move> {
    [Db(Begin(who, now, o.stale, 0, {0}))] + [Db(Lock(who, 0))] + [Db(Recheck(who, 0))] + [Db(Commit(who))]
  }

  /** The only row, with one claim statement in flight. */
  function During(w: World, who: nat, c: Session): World {
    w.(db := w.db.(sessions := map[who := c]))
  }

  ghost predicate OneRow(w: World) {
    |w.db.rows| == |w.db.history| == 1
  }

  lemma BeginAlone(o: Options, w: World, who: nat)
    requires OneRow(w) && w.db.sessions == map[] && Due(w.db.rows[0], w.clock, w.clock - o.stale)
    ensures var m := Db(Begin(who, w.clock, o.stale, 0, {0}));
            Allowed(o, w, m) && Perform(o, w, m) == During(w, who, Session(w.clock, o.stale, {0}, {}, {}))
  {
    assert MayPick(w.db.rows, w.clock, o.stale, 0, {0});
  }

  lemma LockAlone(o: Options, w: World, who: nat)
    requires OneRow(w)
    ensures var v := During(w, who, Session(w.clock, o.stale, {0}, {}, {}));
            Allowed(o, v, Db(Lock(who, 0)))
            && Perform(o, v, Db(Lock(who, 0))) == During(w, who, Session(w.clock, o.stale, {}, {0}, {}))
  {
    var v := During(w, who, Session(w.clock, o.stale, {0}, {}, {}));
    assert Unlocked(v.db, 0);
    assert {0} - {0} == {} && {} + {0} == {0};
  }

  lemma RecheckAlone(o: Options, w: World, who: nat)
    requires OneRow(w) && Due(w.db.rows[0], w.clock, w.clock - o.stale)
    ensures var v := During(w, who, Session(w.clock, o.stale, {}, {0}, {}));
            Allowed(o, v, Db(Recheck(who, 0)))
            && Perform(o, v, Db(Recheck(who, 0))) == During(w, who, Session(w.clock, o.stale, {}, {}, {0}))
  {
    assert {0} - {0} == {} && {} + {0} == {0};
  }

  function Claimed0(o: Options, w: World, who: nat): World
    requires OneRow(w)
  {
    World(State([Stamped(w.db.rows[0], w.clock)], map[], [w.db.history[0] + [Claimed(who, w.clock, o.stale)]]),
          w.clock, w.tickets + {Ticket(who, 0, w.clock, w.db.rows[0].attempts, |w.db.history[0]| + 1)})
  }

  lemma CommitAlone(o: Options, w: World, who: nat)
    requires OneRow(w)
    ensures var v := During(w, who, Session(w.clock, o.stale, {}, {}, {0}));
            Allowed(o, v, Db(Commit(who))) && Perform(o, v, Db(Commit(who))) == Claimed0(o, w, who)
  {
    var v := During(w, who, Session(w.clock, o.stale, {}, {}, {0}));
    assert NewTickets(v.db, who) == {Ticket(who, 0, w.clock, w.db.rows[0].attempts, |w.db.history[0]| + 1)};
    assert v.db.sessions - {who} == map[];
  }

  /** One dispatcher claims the only row, nobody else being about. */
  lemma ClaimAlone(o: Options, w: World, who: nat)
    requires OneRow(w) && w.db.sessions == map[] && Due(w.db.rows[0], w.clock, w.clock - o.stale)
    ensures Lives(o, w, ClaimMoves(o, who, w.clock))
    ensures Finally(o, w, ClaimMoves(o, who, w.clock)) == Claimed0(o, w, who)
  {
    hide Allowed, Perform, Due, During, Claimed0;
    var a, b, c, d := Db(Begin(who, w.clock, o.stale, 0, {0})), Db(Lock(who, 0)), Db(Recheck(who, 0)), Db(Commit(who));
    BeginAlone(o, w, who);
    LockAlone(o, w, who);
    RecheckAlone(o, w, who);
    CommitAlone(o, w, who);
    OneMove(o, w, a);
    OneMove(o, Perform(o, w, a), b);
    LivesOn(o, w, [a], [b]);
    OneMove(o, Finally(o, w, [a] + [b]), c);
    LivesOn(o, w, [a] + [b], [c]);
    OneMove(o, Finally(o, w, [a] + [b] + [c]), d);
    LivesOn(o, w, [a] + [b] + [c], [d]);
  }

  /** Insert, claim by 1, wait out the stale period, claim by 2, 2 delivers, and 1's refusal arrives. */
  function Overtaken(o: Options): seq<Move> {
    [Db(Insert(0, "e", "p", 0))] + ClaimMoves(o, 1, 0) + [Tick(o.stale)] + ClaimMoves(o, 2, o.stale)
    + [Answer(Ticket(2, 0, o.stale, 0, 2), Accepted(200))]
  }

  function OvertakenRow(): Row {
    NewRow(0, "e", "p", 0).(status := Delivered, lastStatus := 200)
  }

  lemma OvertakenDelivers(o: Options)
    requires ValidOptions(o)
    ensures Lives(o, World(EMPTY, 0, {}), Overtaken(o))
    ensures var v := Finally(o, World(EMPTY, 0, {}), Overtaken(o));
            && v.db.sessions == map[] && v.db.rows == [OvertakenRow()] && |v.db.history| == 1
            && v.tickets == {Ticket(1, 0, 0, 0, 1)} && v.clock == o.stale
  {
    hide ClaimMoves;
    var w0 := World(EMPTY, 0, {});
    var r := NewRow(0, "e", "p", 0);
    var w1 := World(State([r], map[], [[]]), 0, {});
    var m1 := Db(Insert(0, "e", "p", 0));
    OneMove(o, w0, m1);
    assert Perform(o, w0, m1) == w1;
    ClaimAlone(o, w1, 1);
    var w2 := Finally(o, w1, ClaimMoves(o, 1, 0));
    LivesOn(o, w0, [m1], ClaimMoves(o, 1, 0));
    var w3 := w2.(clock := o.stale);
    OneMove(o, w2, Tick(o.stale));
    LivesOn(o, w0, [m1] + ClaimMoves(o, 1, 0), [Tick(o.stale)]);
    ClaimAlone(o, w3, 2);
    var w4 := Finally(o, w3, ClaimMoves(o, 2, o.stale));
    LivesOn(o, w0, [m1] + ClaimMoves(o, 1, 0) + [Tick(o.stale)], ClaimMoves(o, 2, o.stale));
    var a, b := Ticket(1, 0, 0, 0, 1), Ticket(2, 0, o.stale, 0, 2);
    assert w4.tickets == {a, b} && w4.tickets - {b} == {a};
    OneMove(o, w4, Answer(b, Accepted(200)));
    LivesOn(o, w0, [m1] + ClaimMoves(o, 1, 0) + [Tick(o.stale)] + ClaimMoves(o, 2, o.stale),
      [Answer(b, Accepted(200))]);
  }

  /** The late refusal then makes the delivered row due again, as soon as its delay is over. */
  lemma LateAnswerReopens(o: Options)
    requires ValidOptions(o) && o.maxAttempts > 1
    ensures var due := o.stale + Delay(o.backoff, 1);
            var moves := Overtaken(o) + [Answer(Ticket(1, 0, 0, 0, 1), Refused(500, "late", Some(due)))] + [Tick(due)];
            && Lives(o, World(EMPTY, 0, {}), moves)
            && var v := Finally(o, World(EMPTY, 0, {}), moves);
               |v.db.rows| == 1 && v.db.rows[0].status.Failed? && Due(v.db.rows[0], v.clock, v.clock - o.stale)
  {
    OvertakenDelivers(o);
    FirstDelay(o);
    var w := World(EMPTY, 0, {});
    var due := o.stale + Delay(o.backoff, 1);
    var late := Answer(Ticket(1, 0, 0, 0, 1), Refused(500, "late", Some(due)));
    hide Overtaken, Delay;
    OneMove(o, Finally(o, w, Overtaken(o)), late);
    LivesOn(o, w, Overtaken(o), [late]);
    OneMove(o, Finally(o, w, Overtaken(o) + [late]), Tick(due));
    LivesOn(o, w, Overtaken(o) + [late], [Tick(due)]);
  }

  lemma FirstDelay(o: Options)
    requires ValidOptions(o)
    ensures 0 < Delay(o.backoff, 1) <= LONGEST_DELAY
  {
    assert Pow2(0) == 1;
  }
}
