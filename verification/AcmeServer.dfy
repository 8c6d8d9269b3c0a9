/**
 * The ACME store's conditional statements as updates in place, and the finalize request that runs them
 * in order. What other requests do in between is the subject of AcmeOrders.
 */
module AcmeServer {
  import opened Common
  import opened AcmeNames
  import opened AcmeOrders

  datatype FinalizeError =
    | NoAccount | AccountInactive | NoOrder | NotYours | NotReady | Expired | BadCsr | CredentialDisabled
    | IssuanceFailed | LinkFailed | ReadBackFailed

  /** What becomes of issuing: a certificate, an error, or a certificate whose read-back fails. */
  datatype Issuing = Works | Fails | Unseen

  /** What becomes of the order afterwards: linked and read back, or one of the two fails. */
  datatype Ending = Answered | LinkFails | ReadFails

  /** The account may make requests, and the order is its own. */
  predicate Mine(s: State, account: nat, o: nat) {
    && account < |s.accounts| && s.accounts[account].active
    && o < |s.orders| && s.orders[o].account == account
  }

  /** The order waits to be finalized. */
  predicate MineAndReady(s: State, account: nat, o: nat) {
    Mine(s, account, o) && s.orders[o].status.Ready?
  }

  /** The CSR names exactly what the order does. */
  predicate Fits(env: Env, s: State, o: nat, csr: Csr)
    requires o < |s.orders|
  {
    env.commonName(s.orders[o].idents, csr).Some?
  }

  /** The order may be finalized by this account, with this request. */
  predicate Finalizable(env: Env, s: State, account: nat, o: nat, csr: Csr, expired: bool) {
    && MineAndReady(s, account, o) && !expired && Fits(env, s, o, csr)
    && CredentialOf(s, o).Some? && !CredentialOf(s, o).value.disabled
  }

  /** Disabling a credential stops the orders under it at once, and enabling it again restores everything. */
  lemma DisablingStopsOrders(env: Env, s: State, account: nat, o: nat, csr: Csr, expired: bool, credential: nat)
    requires Enabled(env, s, SetDisabled(credential, true)) && Under(s, o, credential)
    ensures var t := Apply(env, s, SetDisabled(credential, true));
            && !Finalizable(env, t, account, o, csr, expired)
            && t.orders == s.orders && t.accounts == s.accounts && t.certificates == s.certificates
            && (!s.credentials[credential].disabled ==>
                  Enabled(env, t, SetDisabled(credential, false)) && Apply(env, t, SetDisabled(credential, false)) == s)
  {
    var t := Apply(env, s, SetDisabled(credential, true));
    assert s.credentials[credential := s.credentials[credential]] == s.credentials;
    assert !s.credentials[credential].disabled ==>
        t.credentials[credential := t.credentials[credential].(disabled := false)] == s.credentials;
  }

  /** A deactivated account finalizes nothing, and only that account is changed. */
  lemma DeactivationStopsAccount(env: Env, s: State, account: nat, o: nat, csr: Csr, expired: bool)
    requires Enabled(env, s, Deactivate(account))
    ensures var t := Apply(env, s, Deactivate(account));
            && !Finalizable(env, t, account, o, csr, expired)
            && |t.accounts| == |s.accounts| && t.(accounts := s.accounts) == s
            && t.accounts[account].credential == s.accounts[account].credential
            && forall a :: 0 <= a < |s.accounts| && a != account ==> t.accounts[a] == s.accounts[a]
  {
  }

  /** What a finalize that reports an error leaves behind; `cert` is the id of the next certificate. */
  function OrdersAfterError(orders: seq<Order>, o: nat, cert: nat, e: FinalizeError): seq<Order> {
    if o >= |orders| then orders
    else if e.Expired? || e.BadCsr? then orders[o := orders[o].(status := Invalid)]
    else if e.IssuanceFailed? then orders[o := orders[o].(status := Invalid, claims := 1)]
    else if e.LinkFailed? then orders[o := orders[o].(status := Processing, claims := 1)]
    else if e.ReadBackFailed? then orders[o := orders[o].(status := Valid, certificate := Some(cert), claims := 1)]
    else orders
  }

  /** The order after a claim, issuing and the link; `cert` is the id of the next certificate. */
  function Ended(was: Order, cert: nat, issuing: Issuing, ending: Ending): Order {
    if !issuing.Works? then was.(status := Invalid, claims := 1)
    else if ending.LinkFails? then was.(status := Processing, claims := 1)
    else was.(status := Valid, certificate := Some(cert), claims := 1)
  }

  class Server {
    const env: Env
    var state: State

    constructor (e: Env)
      requires Lawful(e)
      ensures env == e && state == EMPTY && Idle()
    {
      env := e;
      state := EMPTY;
    }

    /** Between requests: the invariant, and nothing in flight. */
    ghost predicate Idle()
      reads this
    {
      Lawful(env) && Invariant(env, state) && state.requests == map[]
    }

    // ---------- statements ----------

    method SetOrderError(o: nat)
      requires o < |state.orders|
      modifies this
      ensures state == old(state).(orders := old(state).orders[o := MarkInvalid(old(state).orders[o])])
    {
      if !state.orders[o].status.Valid? {
        state := state.(orders := state.orders[o := state.orders[o].(status := Invalid)]);
      }
    }

    /** True for the one request that finds the order ready. */
    method ClaimOrderForFinalize(o: nat) returns (claimed: bool)
      requires o < |state.orders|
      modifies this
      ensures claimed == old(state).orders[o].status.Ready?
      ensures state == old(state).(orders := old(state).orders[o := Claimed(old(state).orders[o])])
    {
      claimed := state.orders[o].status.Ready?;
      if claimed {
        state := state.(orders := state.orders[o := state.orders[o].(status := Processing,
          claims := state.orders[o].claims + 1)]);
      }
    }

    method SetOrderCertificate(o: nat, cert: nat)
      requires o < |state.orders|
      modifies this
      ensures state == old(state).(orders := old(state).orders[o := Linked(old(state).orders[o], cert)])
    {
      state := state.(orders := state.orders[o := state.orders[o].(status := Valid, certificate := Some(cert))]);
    }

    /** ORDER BY id DESC LIMIT 1; no two orders share a certificate, so there is nothing to choose from. */
    method GetOrderByCertificate(cert: nat) returns (o: Option<nat>)
      requires Idle()
      ensures o.Some? ==> o.value < |state.orders| && state.orders[o.value].certificate == Some(cert)
      ensures forall p: nat :: p < |state.orders| && state.orders[p].certificate == Some(cert) ==> o == Some(p)
    {
      var i := |state.orders|;
      while i > 0
        invariant 0 <= i <= |state.orders|
        invariant forall p :: i <= p < |state.orders| ==> state.orders[p].certificate != Some(cert)
      {
        i := i - 1;
        if state.orders[i].certificate == Some(cert) {
          LinksAreUnique(env, state, cert, i);
          return Some(i);
        }
      }
      return None;
    }

    // ---------- the request ----------

    /** What follows the checks: the claim, issuing, the link, and reading the order back. */
    method IssueForOrder(o: nat, csr: Csr, issuing: Issuing, ending: Ending)
        returns (r: Result<nat, FinalizeError>, ghost acts: seq<Action>)
      requires Idle() && Alone(env, state, o, csr)
      modifies this
      ensures Idle() && Runs(env, old(state), acts) && state == After(env, old(state), acts)
      ensures match issuing
              case Works =>
                (match ending
                 case Answered => r == Ok(|old(state).certificates|)
                 case LinkFails => r == Err(LinkFailed)
                 case ReadFails => r == Err(ReadBackFailed))
              case _ => r == Err(IssuanceFailed)
      ensures var was := old(state);
              state.orders == was.orders[o := Ended(was.orders[o], |was.certificates|, issuing, ending)]
      ensures var cn := env.commonName(old(state).orders[o].idents, csr).value;
              var profile := CredentialOf(old(state), o).value.profile;
              && env.leaf(csr, cn, profile).Some?
              && NamesExactly(env.leaf(csr, cn, profile).value, old(state).orders[o].idents)
              && state.certificates == old(state).certificates
                   + if issuing.Fails? then [] else [Certificate(env.leaf(csr, cn, profile).value, Some(o))]
    {
      hide Invariant, NamesExactly, Runs, After, Apply;
      ghost var before := state;
      var cn, profile := env.commonName(state.orders[o].idents, csr).value, CredentialOf(state, o).value.profile;
      ReadyIsUnclaimed(env, before, o);
      FinalizedRun(env, before, o, csr);
      var claimed := ClaimOrderForFinalize(o);
      assert claimed; // alone, the request cannot lose the claim
      if issuing.Fails? {
        SetOrderError(o);
        acts := Claiming(o, csr) + [IssueFails(0)];
        FailedRun(env, before, o, csr);
        assert state.orders == before.orders[o := before.orders[o].(status := Invalid, claims := 1)];
        return Err(IssuanceFailed), acts;
      }
      var leaf := env.leaf(csr, cn, profile);
      var cert := |state.certificates|;
      state := state.(certificates := state.certificates + [Certificate(leaf.value, Some(o))]);
      if issuing.Unseen? {
        SetOrderError(o);
        acts := Claiming(o, csr) + [IssueUnseen(0)];
        UnseenRun(env, before, o, csr);
        assert state.orders == before.orders[o := before.orders[o].(status := Invalid, claims := 1)];
        return Err(IssuanceFailed), acts;
      }
      if ending.LinkFails? {
        acts := Claiming(o, csr) + [Issue(0)] + [Stop(0)];
        UnlinkedRun(env, before, o, csr);
        assert state.orders == before.orders[o := before.orders[o].(status := Processing, claims := 1)];
        return Err(LinkFailed), acts;
      }
      SetOrderCertificate(o, cert);
      acts := Claiming(o, csr) + [Issue(0)] + [Link(0)];
      assert state.orders == before.orders[o := before.orders[o].(status := Valid, certificate := Some(cert),
        claims := 1)];
      return if ending.ReadFails? then Err(ReadBackFailed) else Ok(cert), acts;
    }

    /**
     * Every check before the claim, the claim, issuing, and the link. Rejected requests mark the order
     * invalid or leave it alone; only a link that fails leaves it processing. A certificate is stored exactly
     * if the CA stores one, also when that, the link or the last read is then reported as failed.
     */
    method Finalize(account: nat, o: nat, csr: Csr, expired: bool, issuing: Issuing, ending: Ending)
        returns (r: Result<nat, FinalizeError>, ghost acts: seq<Action>)
      requires Idle()
      modifies this
      ensures Idle() && Runs(env, old(state), acts) && state == After(env, old(state), acts)
      ensures r.Ok? <==> Finalizable(env, old(state), account, o, csr, expired) && issuing.Works? && ending.Answered?
      ensures r.Ok? ==>
                && r.value == |old(state).certificates| && |state.certificates| == r.value + 1
                && state.orders == old(state).orders[o := old(state).orders[o].(status := Valid,
                  certificate := Some(r.value), claims := 1)]
                && NamesExactly(state.certificates[r.value].leaf, old(state).orders[o].idents)
      ensures |state.certificates| > |old(state).certificates| ==>
                && Finalizable(env, old(state), account, o, csr, expired)
                && var cn := env.commonName(old(state).orders[o].idents, csr).value;
                   var profile := CredentialOf(old(state), o).value.profile;
                   && env.leaf(csr, cn, profile).Some?
                   && state.certificates == old(state).certificates
                     + [Certificate(env.leaf(csr, cn, profile).value, Some(o))]
      // refusals before the claim, in this order
      ensures r == Err(NoAccount) <==> account >= |old(state).accounts|
      ensures r == Err(AccountInactive) <==> account < |old(state).accounts| && !old(state).accounts[account].active
      ensures r == Err(NoOrder) <==>
                && account < |old(state).accounts| && old(state).accounts[account].active
                && o >= |old(state).orders|
      ensures r == Err(NotYours) <==>
                && account < |old(state).accounts| && old(state).accounts[account].active
                && o < |old(state).orders| && old(state).orders[o].account != account
      ensures r == Err(NotReady) <==> Mine(old(state), account, o) && !old(state).orders[o].status.Ready?
      ensures r == Err(Expired) <==> MineAndReady(old(state), account, o) && expired
      ensures r == Err(BadCsr) <==> MineAndReady(old(state), account, o) && !expired && !Fits(env, old(state), o, csr)
      ensures r == Err(CredentialDisabled) <==>
                && MineAndReady(old(state), account, o) && !expired && Fits(env, old(state), o, csr)
                && CredentialOf(old(state), o).Some? && CredentialOf(old(state), o).value.disabled
      ensures (&& o < |old(state).orders| == |state.orders| && state.orders[o] != old(state).orders[o]
               && state.orders[o].claims == 0 && state.orders[o].status.Invalid?)
         <==> MineAndReady(old(state), account, o) && (expired || !Fits(env, old(state), o, csr))
      ensures r.Err? ==>
                && (r.error.LinkFailed? || r.error.ReadBackFailed? <==>
                      Finalizable(env, old(state), account, o, csr, expired) && issuing.Works?)
                && (r.error.LinkFailed? ==> ending.LinkFails?) && (r.error.ReadBackFailed? ==> ending.ReadFails?)
                && (r.error.IssuanceFailed?
                  <==> Finalizable(env, old(state), account, o, csr, expired) && !issuing.Works?)
                && (if r.error.LinkFailed? || r.error.ReadBackFailed?
                       || (r.error.IssuanceFailed? && issuing.Unseen?) then
                      && |state.certificates| == |old(state).certificates| + 1 && o < |old(state).orders|
                      && NamesExactly(state.certificates[|old(state).certificates|].leaf, old(state).orders[o].idents)
                    else state.certificates == old(state).certificates)
                && state.orders == OrdersAfterError(old(state).orders, o, |old(state).certificates|, r.error)
    {
      hide Invariant, NamesExactly, Runs, After, Apply, Lawful, Claimed;
      acts := [];
      NothingRun(env, state);
      if account >= |state.accounts| {
        return Err(NoAccount), acts;
      }
      if !state.accounts[account].active {
        return Err(AccountInactive), acts;
      }
      if o >= |state.orders| {
        return Err(NoOrder), acts;
      }
      if state.orders[o].account != account {
        return Err(NotYours), acts;
      }
      if !state.orders[o].status.Ready? {
        return Err(NotReady), acts;
      }
      ghost var before := state;
      ReadyIsUnclaimed(env, before, o);
      var cn := if expired then None else env.commonName(state.orders[o].idents, csr);
      if cn.None? {
        SetOrderError(o);
        acts := [Load(0, o), Reject(0)];
        RejectedRun(env, before, o);
        return Err(if expired then Expired else BadCsr), acts;
      }
      var credential := CredentialOf(state, o);
      if credential.value.disabled {
        return Err(CredentialDisabled), acts;
      }
      r, acts := IssueForOrder(o, csr, issuing, ending);
    }
  }

  function Claiming(o: nat, csr: Csr): seq<Action> {
    [Load(0, o), Check(0, csr), Claim(0)]
  }

  lemma RejectedRun(env: Env, s: State, o: nat)
    requires Lawful(env) && Invariant(env, s) && s.requests == map[] && Enabled(env, s, Load(0, o))
    ensures Runs(env, s, [Load(0, o), Reject(0)]) && Invariant(env, After(env, s, [Load(0, o), Reject(0)]))
    ensures After(env, s, [Load(0, o), Reject(0)]) == s.(orders := s.orders[o := MarkInvalid(s.orders[o])])
  {
    hide Invariant;
    RunSnoc(env, s, [], Load(0, o));
    assert [] + [Load(0, o)] == [Load(0, o)];
    RunSnoc(env, s, [Load(0, o)], Reject(0));
    assert [Load(0, o)] + [Reject(0)] == [Load(0, o), Reject(0)];
    RunKeepsInvariant(env, s, [Load(0, o), Reject(0)]);
  }

  /** Nobody else is in flight and this account may finalize this order with this CSR. */
  ghost predicate Alone(env: Env, s: State, o: nat, csr: Csr) {
    && Lawful(env) && Invariant(env, s) && s.requests == map[] && Enabled(env, s, Load(0, o))
    && env.commonName(s.orders[o].idents, csr).Some? && CredentialOf(s, o).Some? && !CredentialOf(s, o).value.disabled
  }

  function HeldBy(env: Env, s: State, o: nat, csr: Csr): Finalize
    requires o < |s.orders| && env.commonName(s.orders[o].idents, csr).Some? && CredentialOf(s, o).Some?
  {
    Holding(o, csr, env.commonName(s.orders[o].idents, csr).value, CredentialOf(s, o).value.profile)
  }

  lemma ClaimedRun(env: Env, s: State, o: nat, csr: Csr)
    requires Alone(env, s, o, csr)
    ensures Runs(env, s, Claiming(o, csr)) && Invariant(env, After(env, s, Claiming(o, csr)))
    ensures After(env, s, Claiming(o, csr))
      == s.(orders := s.orders[o := Claimed(s.orders[o])], requests := map[0 := HeldBy(env, s, o, csr)])
  {
    hide Invariant;
    var a, b, c := Load(0, o), Check(0, csr), Claim(0);
    RunSnoc(env, s, [], a);
    assert [] + [a] == [a] && [a] + [b] == [a, b] && [a, b] + [c] == Claiming(o, csr);
    var t := s.(requests := map[0 := Loaded(o)]);
    assert After(env, s, [a]) == t && CredentialOf(t, o) == CredentialOf(s, o);
    RunSnoc(env, s, [a], b);
    assert After(env, s, [a, b])
      == t.(requests := map[0 := Checked(o, csr, HeldBy(env, s, o, csr).cn, HeldBy(env, s, o, csr).profile)]);
    RunSnoc(env, s, [a, b], c);
    RunKeepsInvariant(env, s, Claiming(o, csr));
  }

  lemma FailedRun(env: Env, s: State, o: nat, csr: Csr)
    requires Alone(env, s, o, csr)
    ensures var acts := Claiming(o, csr) + [IssueFails(0)];
            && Runs(env, s, acts) && Invariant(env, After(env, s, acts))
            && After(env, s, acts) == s.(orders := s.orders[o := s.orders[o].(status := Invalid, claims := 1)])
  {
    hide Invariant;
    ReadyIsUnclaimed(env, s, o);
    ClaimedRun(env, s, o, csr);
    RunSnoc(env, s, Claiming(o, csr), IssueFails(0));
    RunKeepsInvariant(env, s, Claiming(o, csr) + [IssueFails(0)]);
  }

  lemma FinalizedRun(env: Env, s: State, o: nat, csr: Csr)
    requires Alone(env, s, o, csr)
    ensures var acts := Claiming(o, csr) + [Issue(0)] + [Link(0)];
            var leaf := AcmeLeaf(env, HeldBy(env, s, o, csr));
            && Runs(env, s, acts) && Invariant(env, After(env, s, acts)) && leaf.Some?
            && After(env, s, acts) == s.(orders := s.orders[o := s.orders[o].(status := Valid,
              certificate := Some(|s.certificates|), claims := 1)],
                                         certificates := s.certificates + [Certificate(leaf.value, Some(o))])
            && NamesExactly(leaf.value, s.orders[o].idents)
  {
    hide Invariant, NamesExactly;
    ReadyIsUnclaimed(env, s, o);
    ClaimedRun(env, s, o, csr);
    var held := After(env, s, Claiming(o, csr));
    HolderIssues(env, held, 0);
    RunSnoc(env, s, Claiming(o, csr), Issue(0));
    RunSnoc(env, s, Claiming(o, csr) + [Issue(0)], Link(0));
    RunKeepsInvariant(env, s, Claiming(o, csr) + [Issue(0)] + [Link(0)]);
    LastNamesExact(env, After(env, s, Claiming(o, csr) + [Issue(0)] + [Link(0)]), |s.certificates|);
  }

  lemma UnseenRun(env: Env, s: State, o: nat, csr: Csr)
    requires Alone(env, s, o, csr)
    ensures var acts := Claiming(o, csr) + [IssueUnseen(0)];
            var leaf := AcmeLeaf(env, HeldBy(env, s, o, csr));
            && Runs(env, s, acts) && Invariant(env, After(env, s, acts)) && leaf.Some?
            && After(env, s, acts) == s.(orders := s.orders[o := s.orders[o].(status := Invalid, claims := 1)],
                                         certificates := s.certificates + [Certificate(leaf.value, Some(o))])
            && NamesExactly(leaf.value, s.orders[o].idents)
  {
    hide Invariant, NamesExactly;
    ReadyIsUnclaimed(env, s, o);
    ClaimedRun(env, s, o, csr);
    var held := After(env, s, Claiming(o, csr));
    HolderIssues(env, held, 0);
    RunSnoc(env, s, Claiming(o, csr), IssueUnseen(0));
    RunKeepsInvariant(env, s, Claiming(o, csr) + [IssueUnseen(0)]);
    LastNamesExact(env, After(env, s, Claiming(o, csr) + [IssueUnseen(0)]), |s.certificates|);
  }

  lemma UnlinkedRun(env: Env, s: State, o: nat, csr: Csr)
    requires Alone(env, s, o, csr)
    ensures var acts := Claiming(o, csr) + [Issue(0)] + [Stop(0)];
            var leaf := AcmeLeaf(env, HeldBy(env, s, o, csr));
            && Runs(env, s, acts) && Invariant(env, After(env, s, acts)) && leaf.Some?
            && After(env, s, acts) == s.(orders := s.orders[o := s.orders[o].(status := Processing, claims := 1)],
                                         certificates := s.certificates + [Certificate(leaf.value, Some(o))])
            && NamesExactly(leaf.value, s.orders[o].idents)
  {
    hide Invariant, NamesExactly;
    ReadyIsUnclaimed(env, s, o);
    ClaimedRun(env, s, o, csr);
    var held := After(env, s, Claiming(o, csr));
    HolderIssues(env, held, 0);
    RunSnoc(env, s, Claiming(o, csr), Issue(0));
    RunSnoc(env, s, Claiming(o, csr) + [Issue(0)], Stop(0));
    RunKeepsInvariant(env, s, Claiming(o, csr) + [Issue(0)] + [Stop(0)]);
    LastNamesExact(env, After(env, s, Claiming(o, csr) + [Issue(0)] + [Stop(0)]), |s.certificates|);
  }

  lemma ReadyIsUnclaimed(env: Env, s: State, o: nat)
    requires Lawful(env) && Invariant(env, s) && o < |s.orders| && s.orders[o].status.Ready?
    ensures s.orders[o].claims == 0 && CredentialOf(s, o).Some?
  {
    hide NamesExactly;
    assert OrderConsistent(s, o) && OrderNamesAdmitted(env, s, o);
  }

  lemma HolderIssues(env: Env, s: State, pid: nat)
    requires Lawful(env) && Invariant(env, s) && pid in s.requests && s.requests[pid].Holding?
    ensures AcmeLeaf(env, s.requests[pid]).Some?
  {
    assert RequestConsistent(env, s, s.requests[pid]);
  }

  lemma LastNamesExact(env: Env, s: State, c: nat)
    requires Lawful(env) && Invariant(env, s) && c < |s.certificates| && s.certificates[c].origin.Some?
    ensures s.certificates[c].origin.value < |s.orders|
    ensures NamesExactly(s.certificates[c].leaf, s.orders[s.certificates[c].origin.value].idents)
  {
    hide NamesExactly;
    assert CertificateConsistent(s, s.certificates[c]);
  }
}
