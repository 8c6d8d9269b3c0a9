/**
 * ACME orders under concurrent and crashing finalize requests, across replicas.
 *
 * A finalize request is a sequence of atomic store steps: load the order, check the CSR and the
 * credential, claim the order, issue, link the certificate. Requests interleave freely and may stop
 * after any step. Administrators and other issuers act in between.
 */
module AcmeOrders {
  import opened Common
  import opened AcmeNames

  datatype OrderStatus = Ready | Processing | Valid | Invalid

  datatype Credential = Credential(patterns: seq<string>, profile: string, disabled: bool)

  datatype Account = Account(credential: nat, active: bool)

  /** `claims` is history: how many finalize requests have claimed the order. */
  datatype Order = Order(account: nat, status: OrderStatus, idents: seq<string>, certificate: Option<nat>, claims: nat)

  /** `origin` is history: the order whose finalize request issued the certificate, if any. */
  datatype Certificate = Certificate(leaf: Leaf, origin: Option<nat>)

  /** Where a finalize request is. */
  datatype Finalize =
    | Loaded(order: nat)
    | Checked(order: nat, csr: Csr, cn: string, profile: string)
    | Holding(order: nat, csr: Csr, cn: string, profile: string)
    | Issued(order: nat, cert: nat)

  datatype State = State(
    credentials: seq<Credential>, accounts: seq<Account>, orders: seq<Order>,
    certificates: seq<Certificate>, requests: map<nat, Finalize>)

  /**
   * What CreateEAB, NewOrder, Finalize and Issue decide about names and profiles; AcmeRules gives their
   * meaning. `admits` says whether patterns permit a name.
   */
  datatype Env = Env(
    scope: (seq<string>, bool) -> Option<seq<string>>,
    profileOk: string -> bool,
    identifiers: (seq<Requested>, seq<string>) -> Option<seq<string>>,
    commonName: (seq<string>, Csr) -> Option<string>,
    leaf: (Csr, string, string) -> Option<Leaf>,
    admits: (seq<string>, string) -> bool)

  ghost predicate AllAdmitted(env: Env, patterns: seq<string>, idents: seq<string>) {
    idents != [] && forall v :: v in idents ==> env.admits(patterns, v)
  }

  /** Orders name only admitted names, a permitted profile always issues, and the certificate names the order. */
  ghost predicate Lawful(env: Env) {
    && (forall requested: seq<Requested>, patterns: seq<string> ::
          env.identifiers(requested, patterns).Some? ==>
            AllAdmitted(env, patterns, env.identifiers(requested, patterns).value))
    && (forall idents: seq<string>, csr: Csr, profile: string ::
          env.commonName(idents, csr).Some? && env.profileOk(profile) ==>
            env.leaf(csr, env.commonName(idents, csr).value, profile).Some?)
    && (forall idents: seq<string>, csr: Csr, profile: string, patterns: seq<string> ::
          (AllAdmitted(env, patterns, idents) && env.commonName(idents, csr).Some?
           && env.leaf(csr, env.commonName(idents, csr).value, profile).Some?) ==>
            NamesExactly(env.leaf(csr, env.commonName(idents, csr).value, profile).value, idents))
  }

  datatype Action =
    | AddCredential(raws: seq<string>, allowAny: bool, profile: string)
    | SetDisabled(credential: nat, disabled: bool)
    | AddAccount(credential: nat)
    | Deactivate(account: nat)
    | PlaceOrder(account: nat, requested: seq<Requested>)
    | OtherIssue(leaf: Leaf)
    | Load(pid: nat, order: nat)
    | Reject(pid: nat)
    | Check(pid: nat, csr: Csr)
    | Claim(pid: nat)
    | Issue(pid: nat)
    | IssueUnseen(pid: nat) // the certificate row is stored, reading it back fails, the request gives up
    | IssueFails(pid: nat)
    | Link(pid: nat)
    | Stop(pid: nat)

  // ---------- the store's statements ----------

  /** SetAcmeOrderError: mark invalid, unless the order is already valid. */
  function MarkInvalid(o: Order): Order {
    if o.status.Valid? then o else o.(status := Invalid)
  }

  /** ClaimAcmeOrderForFinalize: only a ready order moves. */
  function Claimed(o: Order): Order {
    if o.status.Ready? then o.(status := Processing, claims := o.claims + 1) else o
  }

  /** SetAcmeOrderCertificate: unconditional. */
  function Linked(o: Order, cert: nat): Order {
    o.(status := Valid, certificate := Some(cert))
  }

  function CredentialOf(s: State, order: nat): Option<Credential> {
    if order < |s.orders| && s.orders[order].account < |s.accounts|
       && s.accounts[s.orders[order].account].credential < |s.credentials|
    then Some(s.credentials[s.accounts[s.orders[order].account].credential])
    else None
  }

  function AcmeLeaf(env: Env, f: Finalize): Option<Leaf>
    requires f.Holding?
  {
    env.leaf(f.csr, f.cn, f.profile)
  }

  predicate Enabled(env: Env, s: State, a: Action) {
    match a
    case AddCredential(raws, allowAny, profile) =>
      env.scope(raws, allowAny).Some? && env.profileOk(profile)
    case SetDisabled(c, _) => c < |s.credentials|
    case AddAccount(c) => c < |s.credentials|
    case Deactivate(a) => a < |s.accounts|
    case PlaceOrder(account, requested) => // the credential may have been disabled since NewOrder checked it
      && account < |s.accounts| && s.accounts[account].credential < |s.credentials|
      && env.identifiers(requested, s.credentials[s.accounts[account].credential].patterns).Some?
    case OtherIssue(_) => true
    case Load(pid, o) =>
      && pid !in s.requests && o < |s.orders| && s.orders[o].status.Ready?
      && s.orders[o].account < |s.accounts| && s.accounts[s.orders[o].account].active
    case Reject(pid) => pid in s.requests && s.requests[pid].Loaded? && s.requests[pid].order < |s.orders|
    case Check(pid, csr) =>
      && pid in s.requests && s.requests[pid].Loaded? && s.requests[pid].order < |s.orders|
      && env.commonName(s.orders[s.requests[pid].order].idents, csr).Some?
      && CredentialOf(s, s.requests[pid].order).Some? && !CredentialOf(s, s.requests[pid].order).value.disabled
    case Claim(pid) => pid in s.requests && s.requests[pid].Checked? && s.requests[pid].order < |s.orders|
    case Issue(pid) => pid in s.requests && s.requests[pid].Holding? && AcmeLeaf(env, s.requests[pid]).Some?
    case IssueUnseen(pid) =>
      && pid in s.requests && s.requests[pid].Holding? && AcmeLeaf(env, s.requests[pid]).Some?
      && s.requests[pid].order < |s.orders|
    case IssueFails(pid) => pid in s.requests && s.requests[pid].Holding? && s.requests[pid].order < |s.orders|
    case Link(pid) => pid in s.requests && s.requests[pid].Issued? && s.requests[pid].order < |s.orders|
    case Stop(pid) => pid in s.requests
  }

  function Apply(env: Env, s: State, a: Action): State
    requires Enabled(env, s, a)
  {
    match a
    case AddCredential(raws, allowAny, profile) =>
      s.(credentials := s.credentials + [Credential(env.scope(raws, allowAny).value, profile, false)])
    case SetDisabled(c, disabled) =>
      s.(credentials := s.credentials[c := s.credentials[c].(disabled := disabled)])
    case AddAccount(c) => s.(accounts := s.accounts + [Account(c, true)])
    case Deactivate(a) => s.(accounts := s.accounts[a := s.accounts[a].(active := false)])
    case PlaceOrder(account, requested) =>
      var patterns := s.credentials[s.accounts[account].credential].patterns;
      var idents := env.identifiers(requested, patterns).value;
      s.(orders := s.orders + [Order(account, Ready, idents, None, 0)])
    case OtherIssue(leaf) => s.(certificates := s.certificates + [Certificate(leaf, None)])
    case Load(pid, o) => s.(requests := s.requests[pid := Loaded(o)])
    case Reject(pid) =>
      var o := s.requests[pid].order;
      s.(orders := s.orders[o := MarkInvalid(s.orders[o])], requests := s.requests - {pid})
    case Check(pid, csr) =>
      var o := s.requests[pid].order;
      var cn := env.commonName(s.orders[o].idents, csr).value;
      s.(requests := s.requests[pid := Checked(o, csr, cn, CredentialOf(s, o).value.profile)])
    case Claim(pid) =>
      var f := s.requests[pid];
      if s.orders[f.order].status.Ready? then
        s.(orders := s.orders[f.order := Claimed(s.orders[f.order])],
           requests := s.requests[pid := Holding(f.order, f.csr, f.cn, f.profile)])
      else s.(requests := s.requests - {pid})
    case Issue(pid) =>
      var f := s.requests[pid];
      s.(certificates := s.certificates + [Certificate(AcmeLeaf(env, f).value, Some(f.order))],
         requests := s.requests[pid := Issued(f.order, |s.certificates|)])
    case IssueUnseen(pid) =>
      var f := s.requests[pid];
      s.(certificates := s.certificates + [Certificate(AcmeLeaf(env, f).value, Some(f.order))],
         orders := s.orders[f.order := MarkInvalid(s.orders[f.order])], requests := s.requests - {pid})
    case IssueFails(pid) =>
      var o := s.requests[pid].order;
      s.(orders := s.orders[o := MarkInvalid(s.orders[o])], requests := s.requests - {pid})
    case Link(pid) =>
      var f := s.requests[pid];
      s.(orders := s.orders[f.order := Linked(s.orders[f.order], f.cert)], requests := s.requests - {pid})
    case Stop(pid) => s.(requests := s.requests - {pid})
  }

  const EMPTY := State([], [], [], [], map[])

  predicate Runs(env: Env, s: State, acts: seq<Action>)
    decreases |acts|
  {
    acts == [] || (Enabled(env, s, acts[0]) && Runs(env, Apply(env, s, acts[0]), acts[1..]))
  }

  function After(env: Env, s: State, acts: seq<Action>): State
    requires Runs(env, s, acts)
    decreases |acts|
  {
    if acts == [] then s else After(env, Apply(env, s, acts[0]), acts[1..])
  }

  lemma {:induction false} RunSnoc(env: Env, s: State, acts: seq<Action>, a: Action)
    requires Runs(env, s, acts) && Enabled(env, After(env, s, acts), a)
    ensures Runs(env, s, acts + [a]) && After(env, s, acts + [a]) == Apply(env, After(env, s, acts), a)
    decreases |acts|
  {
    hide Enabled, Apply;
    if acts == [] {
      assert [] + [a] == [a] && [a][1..] == [];
    } else {
      assert (acts + [a])[1..] == acts[1..] + [a];
      RunSnoc(env, Apply(env, s, acts[0]), acts[1..], a);
    }
  }

  // ---------- the invariant ----------

  /** The request has claimed the order and not given it up. */
  predicate Owns(f: Finalize, o: nat) {
    (f.Holding? || f.Issued?) && f.order == o
  }

  predicate Live(s: State, o: nat) {
    exists pid :: pid in s.requests && Owns(s.requests[pid], o)
  }

  ghost predicate OrderNamesAdmitted(env: Env, s: State, o: nat) {
    CredentialOf(s, o).Some? && AllAdmitted(env, CredentialOf(s, o).value.patterns, s.orders[o].idents)
  }

  ghost predicate OrderConsistent(s: State, o: nat)
    requires o < |s.orders|
  {
    var r := s.orders[o];
    && (r.status.Valid? <==> r.certificate.Some?)
    && (r.certificate.Some? ==>
          && r.certificate.value < |s.certificates|
          && s.certificates[r.certificate.value].origin == Some(o))
    && r.claims <= 1 && (r.status.Ready? ==> r.claims == 0)
  }

  ghost predicate RequestConsistent(env: Env, s: State, f: Finalize) {
    && f.order < |s.orders|
    && (f.Checked? || f.Holding? ==>
          && env.commonName(s.orders[f.order].idents, f.csr) == Some(f.cn)
          && env.profileOk(f.profile))
    && (Owns(f, f.order) ==>
          && (s.orders[f.order].status.Processing? || s.orders[f.order].status.Invalid?)
          && s.orders[f.order].claims == 1)
    && (f.Holding? ==> forall c :: 0 <= c < |s.certificates| ==> s.certificates[c].origin != Some(f.order))
    && (f.Issued? ==> f.cert < |s.certificates| && s.certificates[f.cert].origin == Some(f.order))
  }

  ghost predicate CertificateConsistent(s: State, c: Certificate) {
    c.origin.Some? ==>
      && c.origin.value < |s.orders|
      && !s.orders[c.origin.value].status.Ready? && s.orders[c.origin.value].claims == 1
      && NamesExactly(c.leaf, s.orders[c.origin.value].idents)
  }

  ghost predicate OneOwner(s: State) {
    forall p, q ::
      (p in s.requests && q in s.requests
       && Owns(s.requests[p], s.requests[p].order) && Owns(s.requests[q], s.requests[p].order)) ==> p == q
  }

  ghost predicate OneCertificate(s: State) {
    forall c, d ::
      (0 <= c < |s.certificates| && 0 <= d < |s.certificates|
       && s.certificates[c].origin.Some? && s.certificates[c].origin == s.certificates[d].origin) ==> c == d
  }

  ghost predicate Invariant(env: Env, s: State) {
    && (forall c :: 0 <= c < |s.credentials| ==> env.profileOk(s.credentials[c].profile))
    && (forall a :: 0 <= a < |s.accounts| ==> s.accounts[a].credential < |s.credentials|)
    && (forall o :: 0 <= o < |s.orders| ==> OrderNamesAdmitted(env, s, o))
    && (forall o :: 0 <= o < |s.orders| ==> OrderConsistent(s, o))
    && (forall p :: p in s.requests ==> RequestConsistent(env, s, s.requests[p]))
    && (forall c :: 0 <= c < |s.certificates| ==> CertificateConsistent(s, s.certificates[c]))
    && OneOwner(s) && OneCertificate(s)
  }

  lemma AdminStepKeepsInvariant(env: Env, s: State, a: Action)
    requires Lawful(env) && Invariant(env, s) && Enabled(env, s, a)
    requires a.AddCredential? || a.SetDisabled? || a.AddAccount? || a.Deactivate?
    ensures Invariant(env, Apply(env, s, a))
  {
    hide NamesExactly;
    var t := Apply(env, s, a);
    forall o | 0 <= o < |t.orders|
      ensures OrderNamesAdmitted(env, t, o) && OrderConsistent(t, o)
    {
      assert OrderNamesAdmitted(env, s, o) && OrderConsistent(s, o);
      assert CredentialOf(t, o).value.patterns == CredentialOf(s, o).value.patterns;
    }
    forall p | p in t.requests
      ensures RequestConsistent(env, t, t.requests[p])
    {
      assert RequestConsistent(env, s, s.requests[p]);
    }
    forall c | 0 <= c < |t.certificates|
      ensures CertificateConsistent(t, t.certificates[c])
    {
      assert CertificateConsistent(s, s.certificates[c]);
    }
  }

  lemma PlaceOrderKeepsInvariant(env: Env, s: State, a: Action)
    requires Lawful(env) && Invariant(env, s) && Enabled(env, s, a) && a.PlaceOrder?
    ensures Invariant(env, Apply(env, s, a))
  {
    hide NamesExactly;
    var t := Apply(env, s, a);
    forall o | 0 <= o < |t.orders|
      ensures OrderNamesAdmitted(env, t, o) && OrderConsistent(t, o)
    {
      if o < |s.orders| {
        assert OrderNamesAdmitted(env, s, o) && OrderConsistent(s, o);
      }
    }
    forall p | p in t.requests
      ensures RequestConsistent(env, t, t.requests[p])
    {
      assert RequestConsistent(env, s, s.requests[p]);
    }
    forall c | 0 <= c < |t.certificates|
      ensures CertificateConsistent(t, t.certificates[c])
    {
      assert CertificateConsistent(s, s.certificates[c]);
    }
  }

  predicate IsQuiet(a: Action) {
    a.Load? || a.Check? || a.Stop?
  }

  lemma QuietStepKeepsRequests(env: Env, s: State, a: Action)
    requires Invariant(env, s) && Enabled(env, s, a) && IsQuiet(a)
    ensures var t := Apply(env, s, a);
            (forall p :: p in t.requests ==> RequestConsistent(env, t, t.requests[p])) && OneOwner(t)
  {
    hide NamesExactly, OrderNamesAdmitted, CertificateConsistent;
    var t := Apply(env, s, a);
    forall p | p in t.requests
      ensures RequestConsistent(env, t, t.requests[p])
    {
      if p in s.requests {
        assert RequestConsistent(env, s, s.requests[p]);
      }
    }
  }

  lemma QuietStepFrame(env: Env, s: State, a: Action)
    requires Enabled(env, s, a) && IsQuiet(a)
    ensures Apply(env, s, a) == s.(requests := Apply(env, s, a).requests)
  {
  }

  /** What depends on the orders alone does not see the requests. */
  lemma OrdersAlone(env: Env, s: State, requests: map<nat, Finalize>)
    ensures var t := s.(requests := requests);
            && (forall o :: 0 <= o < |s.orders| ==> OrderNamesAdmitted(env, t, o) == OrderNamesAdmitted(env, s, o))
            && (forall o :: 0 <= o < |s.orders| ==> OrderConsistent(t, o) == OrderConsistent(s, o))
            && (forall c :: 0 <= c < |s.certificates| ==>
                  CertificateConsistent(t, s.certificates[c]) == CertificateConsistent(s, s.certificates[c]))
            && OneCertificate(t) == OneCertificate(s)
  {
    hide NamesExactly, AllAdmitted;
  }

  /** Steps of one request that write no order: loading, checking, stopping. */
  lemma QuietStepKeepsInvariant(env: Env, s: State, a: Action)
    requires Invariant(env, s) && Enabled(env, s, a) && IsQuiet(a)
    ensures Invariant(env, Apply(env, s, a))
  {
    hide Apply, Enabled, OrderNamesAdmitted, OrderConsistent, OneOwner, OneCertificate, RequestConsistent,
      CertificateConsistent;
    QuietStepKeepsRequests(env, s, a);
    QuietStepFrame(env, s, a);
    OrdersAlone(env, s, Apply(env, s, a).requests);
  }

  predicate WritesStatus(a: Action) {
    a.Reject? || a.Claim? || a.IssueFails? || a.Link?
  }

  lemma StatusStepKeepsOrders(env: Env, s: State, a: Action)
    requires Lawful(env) && Invariant(env, s) && Enabled(env, s, a) && WritesStatus(a)
    ensures var t := Apply(env, s, a);
            forall o :: 0 <= o < |t.orders| ==> OrderNamesAdmitted(env, t, o) && OrderConsistent(t, o)
  {
    hide NamesExactly, CertificateConsistent, OneOwner, OneCertificate;
    var t := Apply(env, s, a);
    assert RequestConsistent(env, s, s.requests[a.pid]);
    forall o | 0 <= o < |t.orders|
      ensures OrderNamesAdmitted(env, t, o) && OrderConsistent(t, o)
    {
      assert OrderNamesAdmitted(env, s, o) && OrderConsistent(s, o);
      assert CredentialOf(t, o) == CredentialOf(s, o) && t.orders[o].idents == s.orders[o].idents;
    }
  }

  lemma StatusStepKeepsRequests(env: Env, s: State, a: Action)
    requires Lawful(env) && Invariant(env, s) && Enabled(env, s, a) && WritesStatus(a)
    ensures var t := Apply(env, s, a);
            (forall p :: p in t.requests ==> RequestConsistent(env, t, t.requests[p])) && OneOwner(t)
  {
    hide NamesExactly, OrderNamesAdmitted;
    var t := Apply(env, s, a);
    var mine := s.requests[a.pid].order;
    assert RequestConsistent(env, s, s.requests[a.pid]) && OrderConsistent(s, mine);
    hide OrderConsistent;
    forall p | p in t.requests
      ensures RequestConsistent(env, t, t.requests[p])
      ensures Owns(t.requests[p], mine) ==> p == a.pid || (Owns(s.requests[p], mine) && !s.orders[mine].status.Ready?)
    {
      assert RequestConsistent(env, s, s.requests[p]);
      assert a.Claim? && p == a.pid ==>
        forall c :: 0 <= c < |s.certificates| ==> CertificateConsistent(s, s.certificates[c]);
    }
  }

  lemma StatusStepKeepsCertificates(env: Env, s: State, a: Action)
    requires Lawful(env) && Invariant(env, s) && Enabled(env, s, a) && WritesStatus(a)
    ensures var t := Apply(env, s, a);
            && t.credentials == s.credentials && t.accounts == s.accounts && t.certificates == s.certificates
            && forall c :: 0 <= c < |t.certificates| ==> CertificateConsistent(t, t.certificates[c])
  {
    hide OrderNamesAdmitted, OrderConsistent, NamesExactly, OneOwner, OneCertificate;
    var t := Apply(env, s, a);
    assert RequestConsistent(env, s, s.requests[a.pid]);
    hide RequestConsistent, Invariant;
    forall c | 0 <= c < |t.certificates|
      ensures CertificateConsistent(t, t.certificates[c])
    {
      assert CertificateConsistent(s, s.certificates[c]);
    }
  }

  /** Steps of one request that write the status of its order. */
  lemma StatusStepKeepsInvariant(env: Env, s: State, a: Action)
    requires Lawful(env) && Invariant(env, s) && Enabled(env, s, a) && WritesStatus(a)
    ensures Invariant(env, Apply(env, s, a))
  {
    StatusStepKeepsOrders(env, s, a);
    StatusStepKeepsRequests(env, s, a);
    StatusStepKeepsCertificates(env, s, a);
    hide Enabled, Apply, OrderNamesAdmitted, OrderConsistent, OneOwner, RequestConsistent, CertificateConsistent;
  }

  lemma IssueKeepsInvariant(env: Env, s: State, a: Action)
    requires Lawful(env) && Invariant(env, s) && Enabled(env, s, a) && (a.Issue? || a.OtherIssue?)
    ensures Invariant(env, Apply(env, s, a))
  {
    hide NamesExactly;
    var t := Apply(env, s, a);
    forall o | 0 <= o < |t.orders|
      ensures OrderNamesAdmitted(env, t, o) && OrderConsistent(t, o)
    {
      assert OrderNamesAdmitted(env, s, o) && OrderConsistent(s, o);
    }
    forall p | p in t.requests
      ensures RequestConsistent(env, t, t.requests[p])
    {
      assert RequestConsistent(env, s, s.requests[p]);
      if a.Issue? && p != a.pid && s.requests[p].Holding? {
        assert Owns(s.requests[p], s.requests[p].order) && Owns(s.requests[a.pid], s.requests[a.pid].order);
      }
    }
    forall c | 0 <= c < |t.certificates|
      ensures CertificateConsistent(t, t.certificates[c])
    {
      if c < |s.certificates| {
        assert CertificateConsistent(s, s.certificates[c]);
      } else if a.Issue? {
        assert RequestConsistent(env, s, s.requests[a.pid]) && OrderConsistent(s, s.requests[a.pid].order);
        var f := s.requests[a.pid];
        assert OrderNamesAdmitted(env, s, f.order);
      }
    }
    assert a.Issue? ==> RequestConsistent(env, s, s.requests[a.pid]);
  }

  /** A request that holds its order gives up and marks the order invalid, whatever it has issued. */
  function GivenUp(s: State, pid: nat): State
    requires pid in s.requests && s.requests[pid].order < |s.orders|
  {
    var o := s.requests[pid].order;
    s.(orders := s.orders[o := MarkInvalid(s.orders[o])], requests := s.requests - {pid})
  }

  lemma GivingUpKeepsInvariant(env: Env, s: State, pid: nat)
    requires Lawful(env) && Invariant(env, s) && pid in s.requests && Owns(s.requests[pid], s.requests[pid].order)
    ensures s.requests[pid].order < |s.orders| && Invariant(env, GivenUp(s, pid))
  {
    hide NamesExactly;
    assert RequestConsistent(env, s, s.requests[pid]);
    var t := GivenUp(s, pid);
    forall o | 0 <= o < |t.orders|
      ensures OrderNamesAdmitted(env, t, o) && OrderConsistent(t, o)
    {
      assert OrderNamesAdmitted(env, s, o) && OrderConsistent(s, o);
    }
    forall p | p in t.requests
      ensures RequestConsistent(env, t, t.requests[p])
    {
      assert RequestConsistent(env, s, s.requests[p]);
    }
    forall c | 0 <= c < |t.certificates|
      ensures CertificateConsistent(t, t.certificates[c])
    {
      assert CertificateConsistent(s, s.certificates[c]);
    }
  }

  lemma IssueUnseenKeepsInvariant(env: Env, s: State, pid: nat)
    requires Lawful(env) && Invariant(env, s) && Enabled(env, s, IssueUnseen(pid))
    ensures Invariant(env, Apply(env, s, IssueUnseen(pid)))
  {
    hide Invariant, Lawful;
    var t := Apply(env, s, Issue(pid));
    IssueKeepsInvariant(env, s, Issue(pid));
    GivingUpKeepsInvariant(env, t, pid);
    assert t.requests - {pid} == s.requests - {pid};
  }

  lemma StepKeepsInvariant(env: Env, s: State, a: Action)
    requires Lawful(env) && Invariant(env, s) && Enabled(env, s, a)
    ensures Invariant(env, Apply(env, s, a))
  {
    if a.AddCredential? || a.SetDisabled? || a.AddAccount? || a.Deactivate? {
      AdminStepKeepsInvariant(env, s, a);
    } else if a.PlaceOrder? {
      PlaceOrderKeepsInvariant(env, s, a);
    } else if a.Issue? || a.OtherIssue? {
      IssueKeepsInvariant(env, s, a);
    } else if a.IssueUnseen? {
      IssueUnseenKeepsInvariant(env, s, a.pid);
    } else if IsQuiet(a) {
      QuietStepKeepsInvariant(env, s, a);
    } else {
      StatusStepKeepsInvariant(env, s, a);
    }
  }

  lemma {:induction false} RunKeepsInvariant(env: Env, s: State, acts: seq<Action>)
    requires Lawful(env) && Invariant(env, s) && Runs(env, s, acts)
    ensures Invariant(env, After(env, s, acts))
    decreases |acts|
  {
    if acts != [] {
      StepKeepsInvariant(env, s, acts[0]);
      RunKeepsInvariant(env, Apply(env, s, acts[0]), acts[1..]);
    }
  }

  // ---------- what holds in every run ----------

  /**
   * Each order is claimed at most once and at most one certificate is issued for it; an order is valid
   * exactly when it is linked to a certificate, and that certificate was issued for this order.
   */
  lemma OneCertificatePerOrder(env: Env, acts: seq<Action>, o: nat)
    requires Lawful(env) && Runs(env, EMPTY, acts) && o < |After(env, EMPTY, acts).orders|
    ensures var s := After(env, EMPTY, acts);
            && s.orders[o].claims <= 1
            && (s.orders[o].status.Valid? <==> s.orders[o].certificate.Some?)
            && (forall c :: 0 <= c < |s.certificates| && s.certificates[c].origin == Some(o) ==>
                  s.orders[o].claims == 1)
            && (forall c, d :: 0 <= c < d < |s.certificates| ==>
                  s.certificates[c].origin != Some(o) || s.certificates[d].origin != Some(o))
            && (s.orders[o].certificate.Some? ==>
                  && s.orders[o].certificate.value < |s.certificates|
                  && s.certificates[s.orders[o].certificate.value].origin == Some(o))
  {
    RunKeepsInvariant(env, EMPTY, acts);
    var s := After(env, EMPTY, acts);
    assert OrderConsistent(s, o);
    assert forall c :: 0 <= c < |s.certificates| ==> CertificateConsistent(s, s.certificates[c]);
  }

  /**
   * Of two requests past every check of one ready order, the one that claims first holds it; the
   * other is dropped when it claims, and nothing else changes.
   */
  lemma FirstClaimWins(env: Env, s: State, first: nat, second: nat)
    requires first != second && Enabled(env, s, Claim(first)) && Enabled(env, s, Claim(second))
    requires s.requests[first].order == s.requests[second].order
    requires s.orders[s.requests[first].order].status.Ready?
    ensures var t := Apply(env, s, Claim(first));
            && first in t.requests && t.requests[first].Holding? && t.certificates == s.certificates
            && Enabled(env, t, Claim(second))
            && Apply(env, t, Claim(second)) == t.(requests := t.requests - {second})
  {
    var t := Apply(env, s, Claim(first));
    assert t.orders[s.requests[second].order].status.Processing?;
  }

  function Issuances(acts: seq<Action>): nat {
    if acts == [] then 0
    else (if acts[0].Issue? || acts[0].IssueUnseen? || acts[0].OtherIssue? then 1 else 0) + Issuances(acts[1..])
  }

  /** Certificates are only added, one by each issuing step: those through ACME and all others. */
  lemma {:induction false} CertificatesCounted(env: Env, s: State, acts: seq<Action>)
    requires Runs(env, s, acts)
    ensures s.certificates <= After(env, s, acts).certificates
    ensures |After(env, s, acts).certificates| == |s.certificates| + Issuances(acts)
    decreases |acts|
  {
    if acts != [] {
      CertificatesCounted(env, Apply(env, s, acts[0]), acts[1..]);
    }
  }

  /**
   * A certificate issued by any finalize request names exactly its order's identifiers, carries no
   * other name and is no CA; each identifier is a host name its account's credential admits.
   */
  lemma IssuedNamesAreAdmitted(env: Env, acts: seq<Action>, c: nat)
    requires Lawful(env) && Runs(env, EMPTY, acts)
    requires c < |After(env, EMPTY, acts).certificates| && After(env, EMPTY, acts).certificates[c].origin.Some?
    ensures var s := After(env, EMPTY, acts);
            var o := s.certificates[c].origin.value;
            && o < |s.orders| && CredentialOf(s, o).Some?
            && NamesExactly(s.certificates[c].leaf, s.orders[o].idents)
            && forall v :: v in s.orders[o].idents ==>
                 env.admits(CredentialOf(s, o).value.patterns, v)
  {
    RunKeepsInvariant(env, EMPTY, acts);
    var s := After(env, EMPTY, acts);
    assert CertificateConsistent(s, s.certificates[c]);
    assert OrderNamesAdmitted(env, s, s.certificates[c].origin.value);
  }

  /** GetAcmeOrderByCertificate: the newest order linked to the certificate. */
  function OrderByCertificate(orders: seq<Order>, cert: nat): Option<nat> {
    if orders == [] then None
    else if orders[|orders| - 1].certificate == Some(cert) then Some(|orders| - 1)
    else OrderByCertificate(orders[..|orders| - 1], cert)
  }

  lemma {:induction false} OrderByCertificateFinds(orders: seq<Order>, cert: nat)
    ensures match OrderByCertificate(orders, cert)
            case None => forall o :: 0 <= o < |orders| ==> orders[o].certificate != Some(cert)
            case Some(o) => o < |orders| && orders[o].certificate == Some(cert)
  {
    if orders != [] {
      OrderByCertificateFinds(orders[..|orders| - 1], cert);
    }
  }

  /** No certificate is linked to two orders. */
  lemma LinksAreUnique(env: Env, s: State, cert: nat, o: nat)
    requires Invariant(env, s)
    requires o < |s.orders| && s.orders[o].certificate == Some(cert)
    ensures forall p :: 0 <= p < |s.orders| && s.orders[p].certificate == Some(cert) ==> p == o
  {
    hide NamesExactly;
    assert OrderConsistent(s, o);
    forall p | 0 <= p < |s.orders| && s.orders[p].certificate == Some(cert)
      ensures p == o
    {
      assert OrderConsistent(s, p);
    }
  }

  /** The lookup that entitles an account is exact: it returns the one order linked to the certificate. */
  lemma OrderLookupExact(env: Env, acts: seq<Action>, cert: nat, o: nat)
    requires Lawful(env) && Runs(env, EMPTY, acts)
    ensures var s := After(env, EMPTY, acts);
            OrderByCertificate(s.orders, cert) == Some(o)
            <==> o < |s.orders| && s.orders[o].certificate == Some(cert)
  {
    RunKeepsInvariant(env, EMPTY, acts);
    var s := After(env, EMPTY, acts);
    OrderByCertificateFinds(s.orders, cert);
    if o < |s.orders| && s.orders[o].certificate == Some(cert) {
      LinksAreUnique(env, s, cert, o);
    }
  }

  /** `valid` is final, and a linked certificate is never replaced. */
  lemma {:induction false} ValidIsFinal(env: Env, s: State, acts: seq<Action>, o: nat)
    requires Lawful(env) && Invariant(env, s) && Runs(env, s, acts)
    requires o < |s.orders| && s.orders[o].status.Valid?
    ensures o < |After(env, s, acts).orders| && After(env, s, acts).orders[o] == s.orders[o]
    decreases |acts|
  {
    if acts != [] {
      var a := acts[0];
      if a.Reject? || a.Claim? || a.IssueUnseen? || a.IssueFails? || a.Link? {
        assert RequestConsistent(env, s, s.requests[a.pid]);
      }
      StepKeepsInvariant(env, s, a);
      ValidIsFinal(env, Apply(env, s, a), acts[1..], o);
    }
  }

  // ---------- when `invalid` is final ----------

  lemma NobodyRevives(env: Env, s: State, a: Action, o: nat)
    requires Lawful(env) && Invariant(env, s) && Enabled(env, s, a)
    requires o < |s.orders| && s.orders[o].status.Invalid? && !Live(s, o)
    ensures var t := Apply(env, s, a); o < |t.orders| && t.orders[o].status.Invalid? && !Live(t, o)
  {
    hide Invariant;
    var t := Apply(env, s, a);
    assert forall pid :: pid in s.requests ==> !Owns(s.requests[pid], o);
    assert forall pid :: pid in t.requests && Owns(t.requests[pid], o) ==>
      pid in s.requests && Owns(s.requests[pid], o);
  }

  /** An invalid order that nobody holds stays invalid. */
  lemma {:induction false} DeadInvalidStays(env: Env, s: State, acts: seq<Action>, o: nat)
    requires Lawful(env) && Invariant(env, s) && Runs(env, s, acts)
    requires o < |s.orders| && s.orders[o].status.Invalid? && !Live(s, o)
    ensures o < |After(env, s, acts).orders| && After(env, s, acts).orders[o].status.Invalid?
    decreases |acts|
  {
    hide Invariant, Enabled, Apply, Live;
    if acts != [] {
      var a := acts[0];
      var t := Apply(env, s, a);
      StepKeepsInvariant(env, s, a);
      NobodyRevives(env, s, a, o);
      DeadInvalidStays(env, t, acts[1..], o);
    }
  }

  /** The two steps by which a request that already holds the order makes it valid. */
  function Completion(s: State, pid: nat): seq<Action>
    requires pid in s.requests
  {
    if s.requests[pid].Holding? then [Issue(pid), Link(pid)] else [Link(pid)]
  }

  lemma HolderRevives(env: Env, s: State, o: nat, pid: nat)
    requires Lawful(env) && Invariant(env, s) && o < |s.orders|
    requires pid in s.requests && Owns(s.requests[pid], o)
    ensures Runs(env, s, Completion(s, pid))
    ensures o < |After(env, s, Completion(s, pid)).orders|
    ensures After(env, s, Completion(s, pid)).orders[o].status.Valid?
  {
    assert RequestConsistent(env, s, s.requests[pid]);
    hide Invariant, RequestConsistent;
    if s.requests[pid].Holding? {
      var t := Apply(env, s, Issue(pid));
      assert Completion(s, pid)[1..] == [Link(pid)];
      LinkAlone(env, t, pid);
    } else {
      LinkAlone(env, s, pid);
    }
  }

  lemma LinkAlone(env: Env, s: State, pid: nat)
    requires Enabled(env, s, Link(pid))
    ensures Runs(env, s, [Link(pid)]) && After(env, s, [Link(pid)]) == Apply(env, s, Link(pid))
  {
    assert [Link(pid)][1..] == [];
  }

  /**
   * A losing finalize may mark an order invalid while the winner is still issuing, so `invalid` is not
   * final in general. It is final exactly when no request in flight holds the order.
   */
  lemma InvalidIsFinalIff(env: Env, s: State, o: nat)
    requires Lawful(env) && Invariant(env, s) && o < |s.orders| && s.orders[o].status.Invalid?
    ensures (forall acts :: Runs(env, s, acts) ==>
               o < |After(env, s, acts).orders| && After(env, s, acts).orders[o].status.Invalid?)
       <==> !Live(s, o)
  {
    if Live(s, o) {
      var pid :| pid in s.requests && Owns(s.requests[pid], o);
      HolderRevives(env, s, o, pid);
      assert Runs(env, s, Completion(s, pid));
    } else {
      forall acts | Runs(env, s, acts)
        ensures o < |After(env, s, acts).orders| && After(env, s, acts).orders[o].status.Invalid?
      {
        DeadInvalidStays(env, s, acts, o);
      }
    }
  }

  /** `acts` lead from the empty server to `s`, and one more step to `t`. */
  lemma OneStep(env: Env, acts: seq<Action>, s: State, a: Action, t: State)
    requires Runs(env, EMPTY, acts) && After(env, EMPTY, acts) == s && Enabled(env, s, a) && Apply(env, s, a) == t
    ensures Runs(env, EMPTY, acts + [a]) && After(env, EMPTY, acts + [a]) == t
  {
    RunSnoc(env, EMPTY, acts, a);
  }

  /** An order can be placed with these, and finalized with the CSR. */
  ghost predicate Placeable(env: Env, raws: seq<string>, allowAny: bool, profile: string, requested: seq<Requested>,
      csr: Csr) {
    && env.scope(raws, allowAny).Some? && env.profileOk(profile)
    && env.identifiers(requested, env.scope(raws, allowAny).value).Some?
    && env.commonName(env.identifiers(requested, env.scope(raws, allowAny).value).value, csr).Some?
  }

  function Placing(raws: seq<string>, allowAny: bool, profile: string, requested: seq<Requested>): seq<Action> {
    [AddCredential(raws, allowAny, profile)] + [AddAccount(0)] + [PlaceOrder(0, requested)]
  }

  /** Two requests load the order; 1 passes the checks and claims it, then 2 is rejected. */
  function Losing(raws: seq<string>, allowAny: bool, profile: string, requested: seq<Requested>, csr: Csr): seq<Action>
  {
    Placing(raws, allowAny, profile, requested) + [Load(1, 0)] + [Load(2, 0)] + [Check(1, csr)] + [Claim(1)]
    + [Reject(2)]
  }

  function Placed(env: Env, raws: seq<string>, allowAny: bool, profile: string, requested: seq<Requested>): State
    requires env.scope(raws, allowAny).Some?
    requires env.identifiers(requested, env.scope(raws, allowAny).value).Some?
  {
    var patterns := env.scope(raws, allowAny).value;
    State([Credential(patterns, profile, false)], [Account(0, true)],
          [Order(0, Ready, env.identifiers(requested, patterns).value, None, 0)], [], map[])
  }

  lemma PlacedRun(env: Env, raws: seq<string>, allowAny: bool, profile: string, requested: seq<Requested>, csr: Csr)
    requires Placeable(env, raws, allowAny, profile, requested, csr)
    ensures Runs(env, EMPTY, Placing(raws, allowAny, profile, requested))
    ensures After(env, EMPTY, Placing(raws, allowAny, profile, requested))
         == Placed(env, raws, allowAny, profile, requested)
  {
    hide Runs, After;
    var a, b, c := AddCredential(raws, allowAny, profile), AddAccount(0), PlaceOrder(0, requested);
    var s3 := Placed(env, raws, allowAny, profile, requested);
    var s2 := s3.(orders := []);
    var s1 := s2.(accounts := []);
    NothingRun(env, EMPTY);
    OneStep(env, [], EMPTY, a, s1);
    assert [] + [a] == [a];
    OneStep(env, [a], s1, b, s2);
    OneStep(env, [a] + [b], s2, c, s3);
  }

  lemma NothingRun(env: Env, s: State)
    ensures Runs(env, s, []) && After(env, s, []) == s
  {
  }

  /** The loser of the race leaves the order invalid while the winner still holds it. */
  lemma LoserInvalidates(env: Env, raws: seq<string>, allowAny: bool, profile: string, requested: seq<Requested>,
      csr: Csr)
    requires Placeable(env, raws, allowAny, profile, requested, csr)
    ensures var acts := Losing(raws, allowAny, profile, requested, csr);
            && Runs(env, EMPTY, acts)
            && var s := After(env, EMPTY, acts);
               && |s.orders| == 1 && s.orders[0].status.Invalid? && Live(s, 0)
               && s.requests.Keys == {1} && s.requests[1].Holding? && s.requests[1].order == 0
  {
    hide Runs, After, Placing;
    PlacedRun(env, raws, allowAny, profile, requested, csr);
    var acts := Placing(raws, allowAny, profile, requested);
    var s3 := Placed(env, raws, allowAny, profile, requested);
    var o := s3.orders[0];
    var cn := env.commonName(o.idents, csr).value;
    var s4 := s3.(requests := map[1 := Loaded(0)]);
    var s5 := s3.(requests := map[1 := Loaded(0), 2 := Loaded(0)]);
    var s6 := s3.(requests := map[1 := Checked(0, csr, cn, profile), 2 := Loaded(0)]);
    var s7 := s3.(orders := [Claimed(o)], requests := map[1 := Holding(0, csr, cn, profile), 2 := Loaded(0)]);
    var s8 := s3.(orders := [MarkInvalid(Claimed(o))], requests := map[1 := Holding(0, csr, cn, profile)]);
    OneStep(env, acts, s3, Load(1, 0), s4);
    OneStep(env, acts + [Load(1, 0)], s4, Load(2, 0), s5);
    assert s5.requests[1 := Checked(0, csr, cn, profile)] == s6.requests;
    OneStep(env, acts + [Load(1, 0)] + [Load(2, 0)], s5, Check(1, csr), s6);
    assert s6.requests[1 := Holding(0, csr, cn, profile)] == s7.requests;
    OneStep(env, acts + [Load(1, 0)] + [Load(2, 0)] + [Check(1, csr)], s6, Claim(1), s7);
    assert s7.requests - {2} == s8.requests;
    OneStep(env, acts + [Load(1, 0)] + [Load(2, 0)] + [Check(1, csr)] + [Claim(1)], s7, Reject(2), s8);
    assert 1 in s8.requests && Owns(s8.requests[1], 0);
  }

  lemma {:induction false} RunsOn(env: Env, s: State, a: seq<Action>, b: seq<Action>)
    requires Runs(env, s, a) && Runs(env, After(env, s, a), b)
    ensures Runs(env, s, a + b) && After(env, s, a + b) == After(env, After(env, s, a), b)
    decreases |a|
  {
    hide Enabled, Apply;
    if a == [] {
      assert a + b == b;
    } else {
      assert (a + b)[1..] == a[1..] + b;
      RunsOn(env, Apply(env, s, a[0]), a[1..], b);
    }
  }

  /** A whole run from the empty server in which an order is invalid first and valid at the end. */
  lemma InvalidBecomesValid(env: Env, raws: seq<string>, allowAny: bool, profile: string, requested: seq<Requested>,
      csr: Csr)
    requires Lawful(env) && Placeable(env, raws, allowAny, profile, requested, csr)
    ensures var losing := Losing(raws, allowAny, profile, requested, csr);
            var acts := losing + [Issue(1), Link(1)];
            && Runs(env, EMPTY, losing) && |After(env, EMPTY, losing).orders| == 1
            && After(env, EMPTY, losing).orders[0].status.Invalid?
            && Runs(env, EMPTY, acts) && |After(env, EMPTY, acts).orders| >= 1
            && After(env, EMPTY, acts).orders[0].status.Valid?
  {
    hide Runs, After, Losing, Placeable, Lawful;
    LoserInvalidates(env, raws, allowAny, profile, requested, csr);
    var losing := Losing(raws, allowAny, profile, requested, csr);
    var s := After(env, EMPTY, losing);
    RunKeepsInvariant(env, EMPTY, losing);
    HolderRevives(env, s, 0, 1);
    RunsOn(env, EMPTY, losing, Completion(s, 1));
  }

  // ---------- disabling a credential ----------

  /** The credential an order draws on. */
  predicate Under(s: State, o: nat, credential: nat) {
    o < |s.orders| && s.orders[o].account < |s.accounts| && s.accounts[s.orders[o].account].credential == credential
  }

  /** Some request for the order is past the credential check and has not issued yet. */
  predicate PastCheck(s: State, o: nat) {
    exists pid :: pid in s.requests && (s.requests[pid].Checked? || s.requests[pid].Holding?)
      && s.requests[pid].order == o
  }

  /** Rows are only appended; what a certificate came from and whom an order belongs to never changes. */
  ghost predicate Grows(s: State, t: State) {
    && |s.orders| <= |t.orders| && |s.accounts| <= |t.accounts| && s.certificates <= t.certificates
    && (forall o :: 0 <= o < |s.orders| ==> t.orders[o].account == s.orders[o].account)
    && (forall a :: 0 <= a < |s.accounts| ==> t.accounts[a].credential == s.accounts[a].credential)
  }

  lemma {:induction false} RunGrows(env: Env, s: State, acts: seq<Action>)
    requires Runs(env, s, acts)
    ensures Grows(s, After(env, s, acts))
    decreases |acts|
  {
    if acts != [] {
      var t := Apply(env, s, acts[0]);
      assert Grows(s, t);
      RunGrows(env, t, acts[1..]);
    }
  }

  /**
   * While a credential stays disabled, the only orders under it that can still receive a certificate
   * are those with a request already past the credential check when it was disabled.
   */
  lemma {:induction false} DisabledCredentialStops(env: Env, s: State, acts: seq<Action>, credential: nat, k: nat,
      o: nat)
    requires Lawful(env) && Invariant(env, s) && Runs(env, s, acts)
    requires credential < |s.credentials| && s.credentials[credential].disabled
    requires forall i :: 0 <= i < |acts| ==> acts[i] != SetDisabled(credential, false)
    requires |s.certificates| <= k < |After(env, s, acts).certificates|
    requires After(env, s, acts).certificates[k].origin == Some(o) && Under(After(env, s, acts), o, credential)
    ensures Under(s, o, credential) && PastCheck(s, o)
    decreases |acts|
  {
    hide Invariant, Grows, Enabled, Apply, Under, PastCheck;
    if acts != [] {
      var a := acts[0];
      var t := Apply(env, s, a);
      StepKeepsInvariant(env, s, a);
      RunGrows(env, t, acts[1..]);
      if k < |t.certificates| {
        IssuedByHolder(env, s, a, k, o, credential, After(env, s, acts));
      } else {
        assert forall i :: 0 <= i < |acts[1..]| ==> acts[1..][i] == acts[i + 1];
        DisabledStays(env, s, a, credential);
        DisabledCredentialStops(env, t, acts[1..], credential, k, o);
        NoNewCheck(env, s, a, credential, o);
      }
    }
  }

  lemma DisabledStays(env: Env, s: State, a: Action, credential: nat)
    requires Enabled(env, s, a) && a != SetDisabled(credential, false)
    requires credential < |s.credentials| && s.credentials[credential].disabled
    ensures var t := Apply(env, s, a); credential < |t.credentials| && t.credentials[credential].disabled
  {
  }

  lemma IssuedByHolder(env: Env, s: State, a: Action, k: nat, o: nat, credential: nat, last: State)
    requires Lawful(env) && Invariant(env, s) && Enabled(env, s, a)
      && |s.certificates| <= k < |Apply(env, s, a).certificates|
    requires Grows(Apply(env, s, a), last)
    requires k < |last.certificates| && last.certificates[k].origin == Some(o) && Under(last, o, credential)
    ensures Under(s, o, credential) && PastCheck(s, o)
  {
    hide NamesExactly;
    var t := Apply(env, s, a);
    assert last.certificates[k] == t.certificates[k];
    assert (a.Issue? || a.IssueUnseen?) && s.requests[a.pid].order == o;
    assert RequestConsistent(env, s, s.requests[a.pid]);
    assert OrderNamesAdmitted(env, s, o);
  }

  lemma NoNewCheck(env: Env, s: State, a: Action, credential: nat, o: nat)
    requires Lawful(env) && Invariant(env, s) && Enabled(env, s, a)
    requires credential < |s.credentials| && s.credentials[credential].disabled
    requires Under(Apply(env, s, a), o, credential) && PastCheck(Apply(env, s, a), o)
    ensures Under(s, o, credential) && PastCheck(s, o)
  {
    hide NamesExactly, AllAdmitted, Lawful, OrderConsistent, CertificateConsistent, OneOwner, OneCertificate;
    var t := Apply(env, s, a);
    var pid :| pid in t.requests && (t.requests[pid].Checked? || t.requests[pid].Holding?)
      && t.requests[pid].order == o;
    assert pid in s.requests && s.requests[pid].order == o;
    assert RequestConsistent(env, s, s.requests[pid]) && OrderNamesAdmitted(env, s, o);
  }
}
