/**
 * The parent links of the certificate authorities: every way a row of `cas` is written, when the links
 * stay free of loops, and why following them then always ends.
 */
module CaForest {
  import opened Common

  /**
   * What the links depend on in an X.509 certificate. `key` is the public key it certifies, `signer` the
   * one whose signature it carries; `certSign` says whether its key usage allows signing certificates.
   */
  datatype Cert = Cert(fingerprint: string, subject: string, issuer: string, subjectKey: string, authorityKey: string,
                       serial: string, key: nat, signer: nat, isCa: bool, certSign: bool, notAfter: int)

  /** CheckSignatureFrom: the parent may sign, and did. */
  predicate SignedBy(child: Cert, parent: Cert) {
    parent.isCa && parent.certSign && child.signer == parent.key
  }

  predicate SelfSigned(c: Cert) {
    c.subject == c.issuer && SignedBy(c, c)
  }

  datatype Status = Active | Disabled | Pending

  /**
   * A row of `cas`; its id is its position. `key` is the key pair it stands for, `hasKey` whether goca
   * holds the private half. `stamp` is history: when it got its certificate.
   */
  datatype Row = Row(cert: Option<Cert>, parent: Option<nat>, status: Status, key: nat, hasKey: bool, stamp: nat)

  /** A completion that has found its row pending, with the certificate it was given. */
  datatype Completion = Completion(id: nat, cert: Cert)

  /** `clock` counts certifications. */
  datatype State = State(rows: seq<Row>, clock: nat, requests: map<nat, Completion>)

  const EMPTY := State([], 0, map[])

  datatype Action =
    | Create(cert: Cert, parent: Option<nat>)                  // CreateCA
    | Request(key: nat, parent: Option<nat>)                   // CreateSubordinateCSR
    | Import(cert: Cert, parent: Option<nat>, hasKey: bool)    // ImportCA, and the anchors of a chain
    | Start(pid: nat, id: nat, cert: Cert)                     // CompleteSubordinate, up to the matching of the key
    | Finish(pid: nat, parent: Option<nat>)                    // its UPDATE, with the issuer found by then
    | Abandon(pid: nat)
    | SetStatus(id: nat, status: Status)

  predicate Certified(rows: seq<Row>, id: nat) {
    id < |rows| && rows[id].cert.Some?
  }

  /** Row `id` holds the issuer of `cert`. */
  predicate Issuer(rows: seq<Row>, cert: Cert, id: nat) {
    Certified(rows, id) && SignedBy(cert, rows[id].cert.value)
  }

  predicate Mentions(c: Cert, key: nat) {
    c.key == key || c.signer == key
  }

  /** A key just generated: no row, certificate or request knows it. */
  predicate FreshKey(s: State, key: nat) {
    && (forall r :: r in s.rows ==> r.key != key && (r.cert.Some? ==> !Mentions(r.cert.value, key)))
    && (forall pid :: pid in s.requests ==> !Mentions(s.requests[pid].cert, key))
  }

  /** Rows are never deleted or stripped of their certificate, so a link found earlier is still good. */
  predicate Enabled(s: State, a: Action) {
    match a
    case Create(cert, parent) =>
      && FreshKey(s, cert.key) && cert.isCa && cert.certSign
      && (parent.None? ==> cert.signer == cert.key)
      && (parent.Some? ==> Issuer(s.rows, cert, parent.value) && s.rows[parent.value].hasKey
                           && cert.notAfter <= s.rows[parent.value].cert.value.notAfter)
    case Request(key, parent) => FreshKey(s, key) && (parent.Some? ==> parent.value < |s.rows|)
    case Import(cert, parent, _) => parent.Some? ==> Issuer(s.rows, cert, parent.value)
    case Start(pid, id, cert) => pid !in s.requests && id < |s.rows| && s.rows[id].status.Pending?
      && cert.key == s.rows[id].key
    case Finish(pid, parent) =>
      && pid in s.requests && s.requests[pid].id < |s.rows|
      && (parent.Some? ==> Issuer(s.rows, s.requests[pid].cert, parent.value))
    case Abandon(pid) => pid in s.requests
    case SetStatus(id, status) => id < |s.rows| && !status.Pending?
  }

  function CompletedRow(r: Row, cert: Cert, parent: Option<nat>, clock: nat): Row {
    Row(Some(cert), parent, Active, r.key, r.hasKey, clock)
  }

  function Apply(s: State, a: Action): State
    requires Enabled(s, a)
  {
    match a
    case Create(cert, parent) =>
      s.(rows := s.rows + [Row(Some(cert), parent, Active, cert.key, true, s.clock)], clock := s.clock + 1)
    case Request(key, parent) => s.(rows := s.rows + [Row(None, parent, Pending, key, true, 0)])
    case Import(cert, parent, hasKey) =>
      s.(rows := s.rows + [Row(Some(cert), parent, Active, cert.key, hasKey, s.clock)], clock := s.clock + 1)
    case Start(pid, id, cert) => s.(requests := s.requests[pid := Completion(id, cert)])
    case Finish(pid, parent) =>
      var c := s.requests[pid];
      State(s.rows[c.id := CompletedRow(s.rows[c.id], c.cert, parent, s.clock)], s.clock + 1, s.requests - {pid})
    case Abandon(pid) => s.(requests := s.requests - {pid})
    case SetStatus(id, status) => s.(rows := s.rows[id := s.rows[id].(status := status)])
  }

  predicate Runs(s: State, acts: seq<Action>)
    decreases |acts|
  {
    acts == [] || (Enabled(s, acts[0]) && Runs(Apply(s, acts[0]), acts[1..]))
  }

  function After(s: State, acts: seq<Action>): State
    requires Runs(s, acts)
    decreases |acts|
  {
    if acts == [] then s else After(Apply(s, acts[0]), acts[1..])
  }

  /** An issuer found at one moment can still be linked to at any later one. */
  lemma {:induction false} CertifiedStays(s: State, acts: seq<Action>, id: nat)
    requires Runs(s, acts) && Certified(s.rows, id)
    ensures Certified(After(s, acts).rows, id)
    decreases |acts|
  {
    if acts != [] {
      CertifiedStays(Apply(s, acts[0]), acts[1..], id);
    }
  }

  /** A completion that still finds its row without a certificate. */
  predicate Timely(s: State, a: Action) {
    a.Finish? && a.pid in s.requests ==> !Certified(s.rows, s.requests[a.pid].id)
  }

  predicate TimelyRun(s: State, acts: seq<Action>)
    decreases |acts|
  {
    acts == [] || (Enabled(s, acts[0]) && Timely(s, acts[0]) && TimelyRun(Apply(s, acts[0]), acts[1..]))
  }

  // ---------- the invariant ----------

  /**
   * A CA with a certificate has a parent certified strictly earlier; one without has a parent that is
   * certified or an older row.
   */
  ghost predicate Linked(rows: seq<Row>, id: nat)
    requires id < |rows|
  {
    var r := rows[id];
    r.parent.Some? ==>
      && r.parent.value < |rows|
      && (r.cert.Some? ==> Certified(rows, r.parent.value) && rows[r.parent.value].stamp < r.stamp)
      && (r.cert.None? ==> Certified(rows, r.parent.value) || r.parent.value < id)
  }

  ghost predicate Forest(s: State) {
    && (forall id :: 0 <= id < |s.rows| ==> Linked(s.rows, id))
    && (forall id :: 0 <= id < |s.rows| && s.rows[id].cert.Some? ==> s.rows[id].stamp < s.clock)
  }

  lemma StepKeepsForest(s: State, a: Action)
    requires Forest(s) && Enabled(s, a) && Timely(s, a)
    ensures Forest(Apply(s, a))
  {
    var t := Apply(s, a);
    forall id | 0 <= id < |t.rows|
      ensures Linked(t.rows, id)
    {
      assert id < |s.rows| ==> Linked(s.rows, id);
    }
  }

  lemma {:induction false} RunKeepsForest(s: State, acts: seq<Action>)
    requires Forest(s) && TimelyRun(s, acts)
    ensures Runs(s, acts) && Forest(After(s, acts))
    decreases |acts|
  {
    if acts != [] {
      StepKeepsForest(s, acts[0]);
      RunKeepsForest(Apply(s, acts[0]), acts[1..]);
    }
  }

  // ---------- ancestors ----------

  /** Position in the order that the links descend. */
  function Rank(s: State, id: nat): (r: nat)
    requires id < |s.rows|
  {
    if s.rows[id].cert.Some? then s.rows[id].stamp else s.clock + id
  }

  lemma ParentRanksLower(s: State, id: nat)
    requires Forest(s) && id < |s.rows| && s.rows[id].parent.Some?
    ensures s.rows[id].parent.value < |s.rows|
    ensures Rank(s, s.rows[id].parent.value) < Rank(s, id)
  {
    assert Linked(s.rows, id);
  }

  /** The row `n` parent links above `id`. */
  function Above(rows: seq<Row>, id: nat, n: nat): Option<nat>
    decreases n
  {
    if n == 0 then Some(id)
    else if id < |rows| && rows[id].parent.Some? then Above(rows, rows[id].parent.value, n - 1)
    else None
  }

  ghost predicate Acyclic(rows: seq<Row>) {
    forall id: nat, n: nat :: id < |rows| && n > 0 ==> Above(rows, id, n) != Some(id)
  }

  lemma {:induction false} AboveRanksLower(s: State, id: nat, n: nat)
    requires Forest(s) && id < |s.rows| && n > 0 && Above(s.rows, id, n).Some?
    ensures Above(s.rows, id, n).value < |s.rows| && Rank(s, Above(s.rows, id, n).value) < Rank(s, id)
    decreases n
  {
    ParentRanksLower(s, id);
    if n > 1 {
      AboveRanksLower(s, s.rows[id].parent.value, n - 1);
    }
  }

  lemma ForestIsAcyclic(s: State)
    requires Forest(s)
    ensures Acyclic(s.rows)
  {
    forall id: nat, n: nat | id < |s.rows| && n > 0
      ensures Above(s.rows, id, n) != Some(id)
    {
      if Above(s.rows, id, n).Some? {
        AboveRanksLower(s, id, n);
      }
    }
  }

  /** In every run whose completions are timely, following parent links never returns. */
  lemma TimelyRunsAreAcyclic(acts: seq<Action>)
    requires TimelyRun(EMPTY, acts)
    ensures Runs(EMPTY, acts) && Acyclic(After(EMPTY, acts).rows)
  {
    RunKeepsForest(EMPTY, acts);
    ForestIsAcyclic(After(EMPTY, acts));
  }

  // ---------- a completion that comes late ----------

  lemma {:induction false} AboveSplits(rows: seq<Row>, id: nat, m: nat, n: nat)
    ensures Above(rows, id, m + n)
         == match Above(rows, id, m) case None => None case Some(x) => Above(rows, x, n)
    decreases m
  {
    if m > 0 && id < |rows| && rows[id].parent.Some? {
      AboveSplits(rows, rows[id].parent.value, m - 1, n);
    }
  }

  /** Changing the parent of `id` does not change a path until it passes through `id`. */
  lemma {:induction false} SameUntil(rows: seq<Row>, rows': seq<Row>, id: nat, x: nat, n: nat)
    requires |rows'| == |rows| && forall k :: 0 <= k < |rows| && k != id ==> rows'[k].parent == rows[k].parent
    requires forall k :: 0 <= k < n ==> Above(rows, x, k) != Some(id)
    ensures Above(rows', x, n) == Above(rows, x, n)
    decreases n
  {
    if n > 0 {
      assert Above(rows, x, 0) == Some(x);
      if x < |rows| && rows[x].parent.Some? {
        var p := rows[x].parent.value;
        forall k | 0 <= k < n - 1
          ensures Above(rows, p, k) != Some(id)
        {
          assert Above(rows, x, k + 1) == Above(rows, p, k);
        }
        SameUntil(rows, rows', id, p, n - 1);
      }
    }
  }

  lemma {:induction false} FirstVisit(rows: seq<Row>, x: nat, id: nat, n: nat) returns (k: nat)
    requires Above(rows, x, n) == Some(id)
    ensures k <= n && Above(rows, x, k) == Some(id) && forall j :: 0 <= j < k ==> Above(rows, x, j) != Some(id)
  {
    k := 0;
    while Above(rows, x, k) != Some(id)
      invariant k <= n && forall j :: 0 <= j < k ==> Above(rows, x, j) != Some(id)
      decreases n - k
    {
      k := k + 1;
    }
  }

  /** `id` is the row or one of its ancestors. */
  ghost predicate OnPath(rows: seq<Row>, x: nat, id: nat) {
    exists n: nat :: Above(rows, x, n) == Some(id)
  }

  /** Linking a row below one of its own descendants closes a loop; any other link does not. */
  lemma RelinkAcyclicIff(rows: seq<Row>, rows': seq<Row>, id: nat)
    requires Acyclic(rows) && id < |rows| && |rows'| == |rows|
    requires forall k :: 0 <= k < |rows| && k != id ==> rows'[k].parent == rows[k].parent
    ensures Acyclic(rows') <==> rows'[id].parent.None? || !OnPath(rows, rows'[id].parent.value, id)
  {
    if rows'[id].parent.Some? && OnPath(rows, rows'[id].parent.value, id) {
      var p := rows'[id].parent.value;
      var n: nat :| Above(rows, p, n) == Some(id);
      var k := FirstVisit(rows, p, id, n);
      SameUntil(rows, rows', id, p, k);
      assert Above(rows', id, k + 1) == Some(id);
    } else {
      forall x: nat, n: nat | x < |rows'| && n > 0
        ensures Above(rows', x, n) != Some(x)
      {
        if Above(rows', x, n) == Some(x) {
          CycleAvoids(rows, rows', id, x, n);
        }
      }
    }
  }

  /** A loop in the changed links would need a path from the new parent to `id` in the old ones. */
  lemma CycleAvoids(rows: seq<Row>, rows': seq<Row>, id: nat, x: nat, n: nat)
    requires Acyclic(rows) && id < |rows| && |rows'| == |rows|
    requires forall k :: 0 <= k < |rows| && k != id ==> rows'[k].parent == rows[k].parent
    requires rows'[id].parent.None? || !OnPath(rows, rows'[id].parent.value, id)
    requires x < |rows| && n > 0
    ensures Above(rows', x, n) != Some(x)
  {
    if j: nat :| j < n && Above(rows, x, j) == Some(id) {
      var k := FirstVisit(rows, x, id, j);
      SameUntil(rows, rows', id, x, k);
      AboveSplits(rows', x, k, n - k);
      if rows'[id].parent.Some? && Above(rows', x, n) == Some(x) {
        var p := rows'[id].parent.value;
        NeverBack(rows, rows', id, p, n - k - 1 + k);
        AboveSplits(rows', p, n - k - 1, k);
      }
    } else {
      SameUntil(rows, rows', id, x, n);
    }
  }

  lemma NeverBack(rows: seq<Row>, rows': seq<Row>, id: nat, p: nat, n: nat)
    requires |rows'| == |rows| && forall k :: 0 <= k < |rows| && k != id ==> rows'[k].parent == rows[k].parent
    requires !OnPath(rows, p, id)
    ensures Above(rows', p, n) != Some(id)
  {
    SameUntil(rows, rows', id, p, n);
  }

  // ---------- exactly when the links stay acyclic ----------

  ghost predicate ParentsStored(rows: seq<Row>) {
    forall id :: 0 <= id < |rows| && rows[id].parent.Some? ==> rows[id].parent.value < |rows|
  }

  /** Following the links always ends. */
  ghost predicate Rooted(rows: seq<Row>) {
    ParentsStored(rows) && Acyclic(rows)
  }

  lemma ForestIsRooted(s: State)
    requires Forest(s)
    ensures Rooted(s.rows)
  {
    ForestIsAcyclic(s);
    forall id | 0 <= id < |s.rows| && s.rows[id].parent.Some?
      ensures s.rows[id].parent.value < |s.rows|
    {
      assert Linked(s.rows, id);
    }
  }

  /** A completion that links its row to the row itself or to something below it. */
  ghost predicate BelowItself(s: State, a: Action) {
    a.Finish? && a.parent.Some? && a.pid in s.requests && OnPath(s.rows, a.parent.value, s.requests[a.pid].id)
  }

  lemma {:induction false} PathStaysInside(rows: seq<Row>, rows': seq<Row>, x: nat, n: nat)
    requires ParentsStored(rows) && rows <= rows' && x < |rows|
    ensures Above(rows', x, n) == Above(rows, x, n)
    ensures Above(rows, x, n).Some? ==> Above(rows, x, n).value < |rows|
    decreases n
  {
    if n > 0 && rows[x].parent.Some? {
      PathStaysInside(rows, rows', rows[x].parent.value, n - 1);
    }
  }

  lemma AppendKeepsRooted(rows: seq<Row>, r: Row)
    requires Rooted(rows) && (r.parent.Some? ==> r.parent.value < |rows|)
    ensures Rooted(rows + [r])
  {
    var rows' := rows + [r];
    forall x: nat, n: nat | x < |rows'| && n > 0
      ensures Above(rows', x, n) != Some(x)
    {
      if x < |rows| {
        PathStaysInside(rows, rows', x, n);
      } else if r.parent.Some? {
        PathStaysInside(rows, rows', r.parent.value, n - 1);
      }
    }
  }

  lemma {:induction false} SameParents(rows: seq<Row>, rows': seq<Row>, x: nat, n: nat)
    requires |rows| == |rows'| && forall k :: 0 <= k < |rows| ==> rows'[k].parent == rows[k].parent
    ensures Above(rows', x, n) == Above(rows, x, n)
    decreases n
  {
    if n > 0 && x < |rows| && rows[x].parent.Some? {
      SameParents(rows, rows', rows[x].parent.value, n - 1);
    }
  }

  /** Every step keeps the links free of loops, but for a completion that links its row below itself. */
  lemma StepAcyclicIff(s: State, a: Action)
    requires Rooted(s.rows) && Enabled(s, a)
    ensures ParentsStored(Apply(s, a).rows)
    ensures Acyclic(Apply(s, a).rows) <==> !BelowItself(s, a)
  {
    hide FreshKey, SignedBy, Acyclic, OnPath;
    var t := Apply(s, a);
    if a.Create? || a.Request? || a.Import? {
      AppendKeepsRooted(s.rows, t.rows[|s.rows|]);
    } else if a.Finish? {
      RelinkAcyclicIff(s.rows, t.rows, s.requests[a.pid].id);
    } else {
      SameParentsAcyclic(s.rows, t.rows);
    }
  }

  /**
   * CompleteCA's UPDATE does not look at the row it overwrites. Wherever the links were free of loops, it
   * keeps them so exactly if the row is neither its new issuer nor an ancestor of it.
   */
  lemma CompletionAcyclicIff(s: State, pid: nat, parent: Option<nat>)
    requires Rooted(s.rows) && Enabled(s, Finish(pid, parent))
    ensures Acyclic(Apply(s, Finish(pid, parent)).rows)
       <==> parent.None? || !OnPath(s.rows, parent.value, s.requests[pid].id)
  {
    StepAcyclicIff(s, Finish(pid, parent));
  }

  lemma SameParentsAcyclic(rows: seq<Row>, rows': seq<Row>)
    requires |rows| == |rows'| && forall k :: 0 <= k < |rows| ==> rows'[k].parent == rows[k].parent
    ensures Acyclic(rows') <==> Acyclic(rows)
  {
    forall x: nat, n: nat
      ensures Above(rows', x, n) == Above(rows, x, n)
    {
      SameParents(rows, rows', x, n);
    }
  }

  ghost predicate AlwaysAcyclic(s: State, acts: seq<Action>)
    requires Runs(s, acts)
    decreases |acts|
  {
    Acyclic(s.rows) && (acts != [] ==> AlwaysAcyclic(Apply(s, acts[0]), acts[1..]))
  }

  ghost predicate NeverBelowItself(s: State, acts: seq<Action>)
    requires Runs(s, acts)
    decreases |acts|
  {
    acts != [] ==> !BelowItself(s, acts[0]) && NeverBelowItself(Apply(s, acts[0]), acts[1..])
  }

  lemma {:induction false} RunAcyclicIffFrom(s: State, acts: seq<Action>)
    requires Rooted(s.rows) && Runs(s, acts)
    ensures AlwaysAcyclic(s, acts) <==> NeverBelowItself(s, acts)
    decreases |acts|
  {
    hide Enabled, Apply, Acyclic, BelowItself, ParentsStored;
    if acts != [] {
      StepAcyclicIff(s, acts[0]);
      var t := Apply(s, acts[0]);
      if Acyclic(t.rows) {
        RunAcyclicIffFrom(t, acts[1..]);
      } else {
        assert !AlwaysAcyclic(t, acts[1..]);
      }
    }
  }

  /**
   * A run from the empty store keeps the links free of loops all along exactly if none of its completions
   * links a row to itself or to something below it. Whether the row was still bare does not matter.
   */
  lemma RunAcyclicIff(acts: seq<Action>)
    requires Runs(EMPTY, acts)
    ensures AlwaysAcyclic(EMPTY, acts) <==> NeverBelowItself(EMPTY, acts)
  {
    RunAcyclicIffFrom(EMPTY, acts);
  }

  // ---------- when going down from a row ends ----------

  lemma {:induction false} Pigeonhole(p: seq<nat>, m: nat) returns (i: nat, j: nat)
    requires |p| > m && forall k :: 0 <= k < |p| ==> p[k] < m
    ensures i < j < |p| && p[i] == p[j]
    decreases m
  {
    assert p[0] < m;
    var last := m - 1;
    if a :| 0 <= a < |p| && p[a] == last {
      if b :| 0 <= b < |p| && p[b] == last && b != a {
        i, j := if a < b then a else b, if a < b then b else a;
      } else {
        var rest := p[..a] + p[a + 1..];
        var k, l := Pigeonhole(rest, last);
        i, j := if k < a then k else k + 1, if l < a then l else l + 1;
      }
    } else {
      i, j := Pigeonhole(p, last);
    }
  }

  function AboveOr0(rows: seq<Row>, id: nat, k: nat): nat {
    match Above(rows, id, k)
    case Some(x) => x
    case None => 0
  }

  lemma AllAbove(rows: seq<Row>, id: nat, n: nat)
    requires ParentsStored(rows) && id < |rows| && Above(rows, id, n).Some?
    ensures forall k :: 0 <= k <= n ==> Above(rows, id, k).Some? && AboveOr0(rows, id, k) < |rows|
  {
    forall k | 0 <= k <= n
      ensures Above(rows, id, k).Some? && AboveOr0(rows, id, k) < |rows|
    {
      AboveSplits(rows, id, k, n - k);
      PathStaysInside(rows, rows, id, k);
    }
  }

  /** The row is not its own ancestor: there is no loop below it. */
  ghost predicate Treelike(rows: seq<Row>, id: nat) {
    id < |rows| && forall n: nat :: n > 0 ==> Above(rows, id, n) != Some(id)
  }

  /** Some row lies `n` links below this one. */
  ghost predicate Reaches(rows: seq<Row>, id: nat, n: nat) {
    exists x: nat :: x < |rows| && Above(rows, x, n) == Some(id)
  }

  /** On a loop there is a row any number of links below. */
  lemma {:induction false} LoopReaches(rows: seq<Row>, id: nat, k: nat, n: nat) returns (j: nat)
    requires id < |rows| && k > 0 && Above(rows, id, k) == Some(id)
    ensures Above(rows, id, j).Some? && Above(rows, Above(rows, id, j).value, n) == Some(id)
    decreases n
  {
    if n == 0 {
      j := 0;
    } else {
      j := LoopReaches(rows, id, k, n - 1);
      if j == 0 {
        j := k;
      }
      AboveSplits(rows, id, j - 1, 1);
      var x := Above(rows, id, j - 1).value;
      AboveSplits(rows, x, 1, n - 1);
      j := j - 1;
    }
  }

  /** A row as far below as there are rows is on a loop with this one. */
  lemma FarBelowIsLoop(rows: seq<Row>, id: nat, x: nat)
    requires ParentsStored(rows) && x < |rows| && Above(rows, x, |rows|) == Some(id)
    ensures !Treelike(rows, id)
  {
    AllAbove(rows, x, |rows|);
    var p := seq(|rows| + 1, k requires 0 <= k < |rows| + 1 => AboveOr0(rows, x, k));
    var i, j := Pigeonhole(p, |rows|);
    var y, c, m := Above(rows, x, i).value, j - i, |rows| - i;
    AboveSplits(rows, x, i, c);
    AboveSplits(rows, x, i, m);
    AboveSplits(rows, y, c, m);
    AboveSplits(rows, y, m, c);
    assert Above(rows, id, c) == Some(id);
  }

  /** Following the links downward from a row ends exactly if the row is not its own ancestor. */
  lemma DescentEndsIff(rows: seq<Row>, id: nat)
    requires ParentsStored(rows) && id < |rows|
    ensures (exists n: nat :: !Reaches(rows, id, n)) <==> Treelike(rows, id)
  {
    if Treelike(rows, id) {
      forall x: nat | x < |rows|
        ensures Above(rows, x, |rows|) != Some(id)
      {
        if Above(rows, x, |rows|) == Some(id) {
          FarBelowIsLoop(rows, id, x);
        }
      }
      assert !Reaches(rows, id, |rows|);
    } else {
      var k: nat :| k > 0 && Above(rows, id, k) == Some(id);
      forall n: nat
        ensures Reaches(rows, id, n)
      {
        var j := LoopReaches(rows, id, k, n);
        PathStaysInside(rows, rows, id, j);
      }
    }
  }

  /** Parents are stored rows in every run, loops or not. */
  lemma {:induction false} RunKeepsParentsStored(s: State, acts: seq<Action>)
    requires ParentsStored(s.rows) && Runs(s, acts)
    ensures ParentsStored(After(s, acts).rows)
    decreases |acts|
  {
    hide FreshKey, SignedBy;
    if acts != [] {
      RunKeepsParentsStored(Apply(s, acts[0]), acts[1..]);
    }
  }

  /** In every run whose completions are timely, every authority can be retired: below none is a loop. */
  lemma TimelyRunsCanRetire(acts: seq<Action>, id: nat)
    requires TimelyRun(EMPTY, acts)
    ensures Runs(EMPTY, acts)
    ensures ParentsStored(After(EMPTY, acts).rows)
    ensures id < |After(EMPTY, acts).rows| ==> Treelike(After(EMPTY, acts).rows, id)
  {
    RunKeepsForest(EMPTY, acts);
    ForestIsRooted(After(EMPTY, acts));
  }

  // ---------- how long a row stays disabled ----------

  /** Some completion has found this row pending and has not ended. */
  predicate BeingCompleted(s: State, id: nat) {
    exists pid :: pid in s.requests && s.requests[pid].id == id
  }

  /** Nobody activates the row by hand. */
  predicate NeverActivated(acts: seq<Action>, id: nat) {
    forall a :: a in acts ==> a != SetStatus(id, Active)
  }

  predicate IsDisabled(s: State, id: nat) {
    id < |s.rows| && s.rows[id].status.Disabled?
  }

  lemma {:induction false} StaysDisabled(s: State, acts: seq<Action>, id: nat)
    requires Runs(s, acts) && NeverActivated(acts, id) && IsDisabled(s, id) && !BeingCompleted(s, id)
    ensures IsDisabled(After(s, acts), id)
    decreases |acts|
  {
    hide FreshKey, Issuer;
    if acts != [] {
      assert acts[0] in acts && forall a :: a in acts[1..] ==> a in acts;
      StaysDisabled(Apply(s, acts[0]), acts[1..], id);
    }
  }

  lemma CompletionActivates(s: State, id: nat, pid: nat)
    requires IsDisabled(s, id) && pid in s.requests && s.requests[pid].id == id
    ensures Runs(s, [Finish(pid, None)]) && !IsDisabled(After(s, [Finish(pid, None)]), id)
  {
    assert [Finish(pid, None)][1..] == [];
  }

  /**
   * CompleteCA writes the status without looking at it. So a disabled row stays disabled, until it is
   * activated by hand, in every future exactly if no completion that found it pending is still running.
   */
  lemma DisabledStaysIff(s: State, id: nat)
    requires IsDisabled(s, id)
    ensures (forall acts :: Runs(s, acts) && NeverActivated(acts, id) ==> IsDisabled(After(s, acts), id))
       <==> !BeingCompleted(s, id)
  {
    hide IsDisabled, Runs, After;
    if BeingCompleted(s, id) {
      var pid :| pid in s.requests && s.requests[pid].id == id;
      CompletionActivates(s, id, pid);
      assert NeverActivated([Finish(pid, None)], id);
    } else {
      forall acts | Runs(s, acts) && NeverActivated(acts, id)
        ensures IsDisabled(After(s, acts), id)
      {
        StaysDisabled(s, acts, id);
      }
    }
  }

  /** A row is requested, a completion begins, the row is disabled, and the completion ends. */
  function ComesBack(): seq<Action> {
    [Request(0, None)] + [Start(1, 0, CaCert("a", 0, 2))] + [SetStatus(0, Disabled)] + [Finish(1, None)]
  }

  lemma DisabledComesBack()
    ensures Runs(EMPTY, ComesBack())
    ensures var s := After(EMPTY, ComesBack()); |s.rows| == 1 && s.rows[0].status.Active?
  {
    hide Runs, After, CaCert;
    var a := CaCert("a", 0, 2);
    LateKeys();
    var bare := Row(None, None, Pending, 0, true, 0);
    var off, on := bare.(status := Disabled), Row(Some(a), None, Active, 0, true, 0);
    var s1 := State([bare], 0, map[]);
    var s2 := State([bare], 0, map[1 := Completion(0, a)]);
    var s3 := State([off], 0, map[1 := Completion(0, a)]);
    Nothing();
    OneStep(EMPTY, [], Request(0, None), s1);
    assert [] + [Request(0, None)] == [Request(0, None)];
    OneStep(s1, [Request(0, None)], Start(1, 0, a), s2);
    OneStep(s2, [Request(0, None)] + [Start(1, 0, a)], SetStatus(0, Disabled), s3);
    assert s3.requests - {1} == map[];
    OneStep(s3, [Request(0, None)] + [Start(1, 0, a)] + [SetStatus(0, Disabled)], Finish(1, None),
      State([on], 1, map[]));
  }

  // ---------- a late completion, step by step ----------

  lemma OneStep(s: State, acts: seq<Action>, a: Action, t: State)
    requires Runs(EMPTY, acts) && After(EMPTY, acts) == s && Enabled(s, a) && Apply(s, a) == t
    ensures Runs(EMPTY, acts + [a]) && After(EMPTY, acts + [a]) == t
  {
    RunSnoc(EMPTY, acts, a);
  }

  lemma {:induction false} RunSnoc(s: State, acts: seq<Action>, a: Action)
    requires Runs(s, acts) && Enabled(After(s, acts), a)
    ensures Runs(s, acts + [a]) && After(s, acts + [a]) == Apply(After(s, acts), a)
    decreases |acts|
  {
    hide Enabled, Apply;
    if acts == [] {
      assert [] + [a] == [a] && [a][1..] == [];
    } else {
      assert (acts + [a])[1..] == acts[1..] + [a];
      RunSnoc(Apply(s, acts[0]), acts[1..], a);
    }
  }

  /** Keys: 0 goca's subordinate, 1 another authority's, 2 an outside root's. */
  function CaCert(name: string, key: nat, signer: nat): Cert {
    Cert(name, name, "issuer", "", "", name, key, signer, true, true, 0)
  }

  /**
   * One pending row, two requests that both find it pending: one with a certificate from an outside root,
   * one with a certificate that another authority had signed. The first completes; that authority, whose
   * own certificate the now certified row had signed, is imported below it; then the second completes.
   */
  function LateRun(): seq<Action> {
    [Request(0, None)] + [Start(1, 0, CaCert("a", 0, 2))] + [Start(2, 0, CaCert("c", 0, 1))]
    + [Finish(1, None)] + [Import(CaCert("b", 1, 0), Some(0), false)]
  }

  lemma LateRunReaches()
    ensures Runs(EMPTY, LateRun())
    ensures After(EMPTY, LateRun())
         == State([Row(Some(CaCert("a", 0, 2)), None, Active, 0, true, 0),
           Row(Some(CaCert("b", 1, 0)), Some(0), Active, 1, false, 1)],
                  2, map[2 := Completion(0, CaCert("c", 0, 1))])
  {
    hide Runs, After, CaCert;
    var a, b, c := CaCert("a", 0, 2), CaCert("b", 1, 0), CaCert("c", 0, 1);
    LateKeys();
    var bare, done := Row(None, None, Pending, 0, true, 0), Row(Some(a), None, Active, 0, true, 0);
    var s1 := State([bare], 0, map[]);
    var s2 := State([bare], 0, map[1 := Completion(0, a)]);
    var s3 := State([bare], 0, map[1 := Completion(0, a), 2 := Completion(0, c)]);
    var s4 := State([done], 1, map[2 := Completion(0, c)]);
    var s5 := State([done, Row(Some(b), Some(0), Active, 1, false, 1)], 2, map[2 := Completion(0, c)]);
    Nothing();
    OneStep(EMPTY, [], Request(0, None), s1);
    assert [] + [Request(0, None)] == [Request(0, None)];
    OneStep(s1, [Request(0, None)], Start(1, 0, a), s2);
    OneStep(s2, [Request(0, None)] + [Start(1, 0, a)], Start(2, 0, c), s3);
    assert s3.requests - {1} == s4.requests;
    OneStep(s3, [Request(0, None)] + [Start(1, 0, a)] + [Start(2, 0, c)], Finish(1, None), s4);
    OneStep(s4, [Request(0, None)] + [Start(1, 0, a)] + [Start(2, 0, c)] + [Finish(1, None)], Import(b, Some(0), false),
      s5);
  }

  lemma Nothing()
    ensures Runs(EMPTY, []) && After(EMPTY, []) == EMPTY
  {
  }

  lemma LateKeys()
    ensures CaCert("a", 0, 2).key == 0 && CaCert("c", 0, 1).key == 0 && CaCert("b", 1, 0).key == 1
    ensures SignedBy(CaCert("b", 1, 0), CaCert("a", 0, 2)) && SignedBy(CaCert("c", 0, 1), CaCert("b", 1, 0))
  {
  }

  /** The second completion links the row below its own child. */
  lemma LateCompletionMakesCycle()
    ensures Runs(EMPTY, LateRun())
    ensures var s := After(EMPTY, LateRun());
            var late := Finish(2, Some(1));
            && Enabled(s, late) && !Timely(s, late) && BelowItself(s, late)
            && Acyclic(s.rows) && !Acyclic(Apply(s, late).rows) && !Treelike(Apply(s, late).rows, 0)
  {
    LateRunReaches();
    LateKeys();
    hide Runs, After, LateRun, CaCert;
    var s := After(EMPTY, LateRun());
    var late := Finish(2, Some(1));
    assert Issuer(s.rows, s.requests[2].cert, 1);
    assert Above(s.rows, 0, 0) == Some(0) && Above(s.rows, 1, 1) == Some(0);
    TwoRowsRooted(s.rows);
    StepAcyclicIff(s, late);
    var rows := Apply(s, late).rows;
    assert Above(rows, 1, 1) == Above(rows, 0, 0) == Some(0);
    assert Above(rows, 0, 2) == Some(0);
  }

  lemma TwoRowsRooted(rows: seq<Row>)
    requires |rows| == 2 && rows[0].parent.None? && rows[1].parent == Some(0)
    ensures Rooted(rows)
  {
    forall n: nat | n > 0
      ensures Above(rows, 0, n) == None && Above(rows, 1, n) != Some(1)
    {
    }
  }
}
