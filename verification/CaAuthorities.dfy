/** The operations that write parent links, one request at a time, and the chain walk that reads them. */
module CaAuthorities {
  import opened Common
  import opened CaForest

  datatype CaError =
    | NotFound | NotPending | NotACa | NoCertSign | ExpiredCertificate | KeyMismatch
    | AlreadyPresent(id: nat) | ParentUnusable | OutlivesParent | NoCertificate | BadRequest | NameTaken

  /** ValidateCACertificate. */
  function Validate(cert: Cert, now: int): Option<CaError> {
    if !cert.isCa then Some(NotACa)
    else if !cert.certSign then Some(NoCertSign)
    else if now > cert.notAfter then Some(ExpiredCertificate)
    else None
  }

  /** A CA certificate that may sign certificates passes up to and including its last instant. */
  lemma ValidateExact(cert: Cert, now: int)
    ensures Validate(cert, now) == None <==> cert.isCa && cert.certSign && now <= cert.notAfter
    ensures Validate(cert, now) == Some(NotACa) <==> !cert.isCa
    ensures Validate(cert, now) == Some(NoCertSign) <==> cert.isCa && !cert.certSign
    ensures Validate(cert, now) == Some(ExpiredCertificate) <==> cert.isCa && cert.certSign && cert.notAfter < now
  {
  }

  /** What an operation asks of a certificate before it looks at anything else. */
  ghost predicate GoodCa(cert: Cert, now: int) {
    cert.isCa && cert.certSign && now <= cert.notAfter
  }

  predicate Known(rows: seq<Row>, fingerprint: string) {
    exists k :: 0 <= k < |rows| && rows[k].cert.Some? && rows[k].cert.value.fingerprint == fingerprint
  }

  /** A row that linkIssuer added at position `k` for a certificate of the supplied chain. */
  ghost predicate Anchored(rows: seq<Row>, chain: seq<Cert>, k: nat)
    requires k < |rows|
  {
    var r := rows[k];
    && r.cert.Some? && r.cert.value in chain && r.cert.value.isCa && !r.hasKey && r.status.Active?
    && !Known(rows[..k], r.cert.value.fingerprint)
    && match r.parent
       case Some(p) => p < k && Issuer(rows, r.cert.value, p)
       case None => forall j :: 0 <= j < k ==> !Issuer(rows, r.cert.value, j)
  }

  lemma {:induction false} TimelySnoc(s: State, acts: seq<Action>, a: Action)
    requires TimelyRun(s, acts) && Runs(s, acts)
    requires Enabled(After(s, acts), a) && Timely(After(s, acts), a)
    ensures TimelyRun(s, acts + [a]) && Runs(s, acts + [a]) && After(s, acts + [a]) == Apply(After(s, acts), a)
    decreases |acts|
  {
    hide Enabled, Timely, Apply;
    if acts == [] {
      assert [] + [a] == [a] && [a][1..] == [];
    } else {
      assert (acts + [a])[1..] == acts[1..] + [a];
      TimelySnoc(Apply(s, acts[0]), acts[1..], a);
    }
  }

  class Authorities {
    var state: State

    constructor ()
      ensures state == EMPTY && Valid()
    {
      state := EMPTY;
    }

    /**
     * The links form a forest, a row waits for its certificate only as long as it has none, and a
     * certificate whose key is held may sign.
     */
    ghost predicate Valid()
      reads this
    {
      && Forest(state)
      && (forall id :: 0 <= id < |state.rows| && state.rows[id].status.Pending? ==> AwaitsCertificate(state.rows[id]))
      && (forall id :: 0 <= id < |state.rows| && state.rows[id].hasKey && state.rows[id].cert.Some? ==>
        SigningCa(state.rows[id].cert.value))
    }

    static ghost predicate AwaitsCertificate(r: Row) {
      r.cert.None? && r.hasKey
    }

    /** FindCAByFingerprint. */
    method FindByFingerprint(fingerprint: string) returns (id: Option<nat>)
      ensures id.Some? ==> Certified(state.rows, id.value) && state.rows[id.value].cert.value.fingerprint == fingerprint
      ensures id.Some? <==> Known(state.rows, fingerprint)
    {
      for k := 0 to |state.rows|
        invariant !Known(state.rows[..k], fingerprint)
      {
        if state.rows[k].cert.Some? && state.rows[k].cert.value.fingerprint == fingerprint {
          return Some(k);
        }
      }
      assert state.rows[..|state.rows|] == state.rows;
      return None;
    }

    /** The first stored certificate that meets `wanted`. */
    method FirstWhere(wanted: Cert -> bool) returns (id: Option<nat>)
      ensures id.Some? ==> Certified(state.rows, id.value) && wanted(state.rows[id.value].cert.value)
      ensures id.None? ==> forall k: nat :: Certified(state.rows, k) ==> !wanted(state.rows[k].cert.value)
    {
      for k := 0 to |state.rows|
        invariant forall j: nat :: j < k && Certified(state.rows, j) ==> !wanted(state.rows[j].cert.value)
      {
        if state.rows[k].cert.Some? && wanted(state.rows[k].cert.value) {
          return Some(k);
        }
      }
      return None;
    }

    /** By authority key identifier, then by name, then by trying every stored CA. */
    method FindIssuer(cert: Cert) returns (id: Option<nat>)
      ensures id.Some? ==> Issuer(state.rows, cert, id.value)
      ensures id.None? ==> forall k :: 0 <= k < |state.rows| ==> !Issuer(state.rows, cert, k)
    {
      if cert.authorityKey != "" {
        id := FirstWhere((c: Cert) => c.subjectKey == cert.authorityKey);
        if id.Some? && SignedBy(cert, state.rows[id.value].cert.value) {
          return;
        }
      }
      id := FirstWhere((c: Cert) => c.subject == cert.issuer);
      if id.Some? && SignedBy(cert, state.rows[id.value].cert.value) {
        return;
      }
      id := FirstWhere((c: Cert) => SignedBy(cert, c));
    }

    method InsertImported(cert: Cert, parent: Option<nat>, hasKey: bool) returns (id: nat)
      requires Valid() && Enabled(state, Import(cert, parent, hasKey)) && (hasKey ==> SigningCa(cert))
      modifies this
      ensures Valid() && id == |old(state).rows| && state == Apply(old(state), Import(cert, parent, hasKey))
    {
      StepKeepsForest(state, Import(cert, parent, hasKey));
      id := |state.rows|;
      state := state.(rows := state.rows + [Row(Some(cert), parent, Active, cert.key, hasKey, state.clock)],
        clock := state.clock + 1);
    }

    /**
     * Finds the issuer of `cert`, importing what is new in the supplied chain from its root down.
     * Without a result nothing stored afterwards issued the certificate. Every row that was added is
     * an anchor linked to an issuer stored before it, if there was one.
     */
    method LinkIssuer(cert: Cert, chain: seq<Cert>) returns (id: Option<nat>, ghost acts: seq<Action>)
      requires Valid()
      modifies this
      ensures Valid() && TimelyRun(old(state), acts) && Runs(old(state), acts) && state == After(old(state), acts)
      ensures old(state).rows <= state.rows && state.requests == old(state).requests
      ensures forall k :: |old(state).rows| <= k < |state.rows| ==> Anchored(state.rows, chain, k)
      ensures id.Some? ==> Issuer(state.rows, cert, id.value)
      ensures id.None? && !SelfSigned(cert) ==>
                && (forall k :: 0 <= k < |state.rows| ==> !Issuer(state.rows, cert, k))
                && (forall c :: c in chain && c.isCa ==> Known(state.rows, c.fingerprint))
      ensures SelfSigned(cert) ==> id.None? && state == old(state)
    {
      acts := [];
      if SelfSigned(cert) {
        return None, acts;
      }
      id := FindIssuer(cert);
      if id.Some? {
        return;
      }
      acts := ImportChain(chain);
      id := FindIssuer(cert);
    }

    method ImportChain(chain: seq<Cert>) returns (ghost acts: seq<Action>)
      requires Valid()
      modifies this
      ensures Valid() && TimelyRun(old(state), acts) && Runs(old(state), acts) && state == After(old(state), acts)
      ensures old(state).rows <= state.rows && state.requests == old(state).requests
      ensures forall k :: |old(state).rows| <= k < |state.rows| ==> Anchored(state.rows, chain, k)
      ensures forall c :: c in chain && c.isCa ==> Known(state.rows, c.fingerprint)
    {
      acts := [];
      var i := |chain|;
      while i > 0
        invariant 0 <= i <= |chain| && Valid()
        invariant TimelyRun(old(state), acts) && Runs(old(state), acts) && state == After(old(state), acts)
        invariant old(state).rows <= state.rows && state.requests == old(state).requests
        invariant forall k :: |old(state).rows| <= k < |state.rows| ==> Anchored(state.rows, chain, k)
        invariant forall j :: i <= j < |chain| && chain[j].isCa ==> Known(state.rows, chain[j].fingerprint)
      {
        i := i - 1;
        var anchor := chain[i];
        var existing := FindByFingerprint(anchor.fingerprint);
        if existing.Some? || !anchor.isCa {
          continue;
        }
        var parent := FindIssuer(anchor);
        ghost var before := state;
        var id := InsertImported(anchor, parent, false);
        TimelySnoc(old(state), acts, Import(anchor, parent, false));
        acts := acts + [Import(anchor, parent, false)];
        assert state.rows[..id] == before.rows;
        assert parent.Some? ==> Issuer(state.rows, anchor, parent.value);
        assert forall j :: 0 <= j < id && Issuer(state.rows, anchor, j) ==> Issuer(before.rows, anchor, j);
        AnchorAdded(before.rows, state.rows, chain, |old(state).rows|);
        assert state.rows[id].cert.value.fingerprint == anchor.fingerprint;
        KnownStays(before.rows, state.rows);
      }
    }

    /** `key` is the private key supplied with the certificate, if any. */
    method ImportCA(cert: Cert, key: Option<nat>, chain: seq<Cert>, now: int)
        returns (r: Result<nat, CaError>, ghost acts: seq<Action>)
      requires Valid()
      modifies this
      ensures Valid() && TimelyRun(old(state), acts) && Runs(old(state), acts) && state == After(old(state), acts)
      ensures r.Ok? <==>
                && GoodCa(cert, now) && !Known(old(state).rows, cert.fingerprint)
                && (key.Some? ==> key.value == cert.key)
      ensures r == Err(NotACa) <==> !cert.isCa
      ensures r == Err(NoCertSign) <==> cert.isCa && !cert.certSign
      ensures r == Err(ExpiredCertificate) <==> cert.isCa && cert.certSign && cert.notAfter < now
      ensures r.Err? && r.error.AlreadyPresent? <==> GoodCa(cert, now) && Known(old(state).rows, cert.fingerprint)
      ensures r == Err(KeyMismatch) <==>
                && GoodCa(cert, now) && !Known(old(state).rows, cert.fingerprint)
                && key.Some? && key.value != cert.key
      ensures r.Err? ==> state == old(state)
      ensures r.Ok? ==>
                && r.value == |state.rows| - 1 && old(state).rows <= state.rows[..r.value]
                && state.rows[r.value].cert == Some(cert) && state.rows[r.value].hasKey == key.Some?
                && state.rows[r.value].key == cert.key && state.rows[r.value].status.Active?
                && (forall k :: |old(state).rows| <= k < r.value ==> Anchored(state.rows, chain, k))
                && match state.rows[r.value].parent
                   case Some(p) => p < r.value && Issuer(state.rows, cert, p)
                   case None => SelfSigned(cert) || forall k :: 0 <= k < r.value ==> !Issuer(state.rows, cert, k)
    {
      hide SignedBy, FreshKey;
      acts := [];
      var fault := Validate(cert, now);
      ValidateExact(cert, now);
      if fault.Some? {
        return Err(fault.value), acts;
      }
      var existing := FindByFingerprint(cert.fingerprint);
      if existing.Some? {
        return Err(AlreadyPresent(existing.value)), acts;
      }
      if key.Some? && key.value != cert.key {
        return Err(KeyMismatch), acts;
      }
      var parent;
      parent, acts := LinkIssuer(cert, chain);
      ghost var linked := state;
      var id := InsertImported(cert, parent, key.Some?);
      TimelySnoc(old(state), acts, Import(cert, parent, key.Some?));
      acts := acts + [Import(cert, parent, key.Some?)];
      forall k | |old(state).rows| <= k < id
        ensures Anchored(state.rows, chain, k)
      {
        AnchorStays(linked.rows, state.rows, chain, k);
      }
      assert forall k :: 0 <= k < id && Issuer(state.rows, cert, k) ==> Issuer(linked.rows, cert, k);
      return Ok(id), acts;
    }

    /**
     * `key` is the key pair just generated; `formOk` says whether name, subject and key type pass, and
     * `nameTaken` whether the INSERT meets the UNIQUE name.
     */
    method CreateSubordinateCsr(key: nat, parent: Option<nat>, formOk: bool, nameTaken: bool)
        returns (r: Result<nat, CaError>)
      requires Valid() && FreshKey(state, key)
      modifies this
      ensures Valid()
      ensures r.Ok? <==> formOk && !nameTaken && (parent.Some? ==> parent.value < |old(state).rows|)
      ensures r == Err(BadRequest) <==> !formOk
      ensures r == Err(NotFound) <==> formOk && parent.Some? && parent.value >= |old(state).rows|
      ensures r == Err(NameTaken) <==> formOk && nameTaken && (parent.Some? ==> parent.value < |old(state).rows|)
      ensures r.Err? ==> state == old(state)
      ensures r.Ok? ==>
                && r.value == |old(state).rows| && Enabled(old(state), Request(key, parent))
                && state == Apply(old(state), Request(key, parent))
                && state.rows == old(state).rows + [Row(None, parent, Pending, key, true, 0)]
    {
      hide FreshKey, SignedBy;
      if !formOk {
        return Err(BadRequest);
      }
      if parent.Some? && parent.value >= |state.rows| {
        return Err(NotFound);
      }
      if nameTaken {
        return Err(NameTaken);
      }
      StepKeepsForest(state, Request(key, parent));
      r := Ok(|state.rows|);
      state := state.(rows := state.rows + [Row(None, parent, Pending, key, true, 0)]);
    }

    /**
     * `key` is the key pair just generated, `wanted` what the certificate is to say. The parent must have a
     * certificate to name and a key to sign with, and may not expire first; its status is not asked.
     * `formOk` and `nameTaken` are as above.
     */
    method CreateCA(wanted: Cert, key: nat, parent: Option<nat>, formOk: bool, nameTaken: bool)
        returns (r: Result<nat, CaError>)
      requires Valid() && FreshKey(state, key)
      modifies this
      ensures Valid()
      ensures r.Ok? <==>
                && formOk && !nameTaken
                && (parent.Some? ==>
                      && Certified(old(state).rows, parent.value) && old(state).rows[parent.value].hasKey
                      && wanted.notAfter <= old(state).rows[parent.value].cert.value.notAfter)
      ensures r == Err(BadRequest) <==> !formOk
      ensures r == Err(NotFound) <==> formOk && parent.Some? && parent.value >= |old(state).rows|
      ensures r == Err(ParentUnusable) <==>
                && formOk && parent.Some? && parent.value < |old(state).rows|
                && (old(state).rows[parent.value].cert.None? || !old(state).rows[parent.value].hasKey)
      ensures r.Err? && r.error != BadRequest && r.error != NotFound && r.error != ParentUnusable ==>
                r.error == if parent.Some? && Certified(old(state).rows, parent.value)
                              && wanted.notAfter > old(state).rows[parent.value].cert.value.notAfter
                           then OutlivesParent else NameTaken
      ensures r.Err? ==> state == old(state)
      ensures r.Ok? ==>
                var cert := Made(old(state).rows, wanted, key, parent);
                && r.value == |old(state).rows| && Enabled(old(state), Create(cert, parent))
                && state == Apply(old(state), Create(cert, parent))
                && state.rows == old(state).rows + [Row(Some(cert), parent, Active, key, true, old(state).clock)]
                && cert.key == key && cert.isCa && cert.certSign
                && cert.signer == (if parent.Some? then old(state).rows[parent.value].cert.value.key else key)
                && cert.(key := wanted.key, signer := wanted.signer, isCa := wanted.isCa, certSign := wanted.certSign)
                  == wanted
    {
      if !formOk {
        return Err(BadRequest);
      }
      if parent.Some? {
        if parent.value >= |state.rows| {
          return Err(NotFound);
        }
        if state.rows[parent.value].cert.None? || !state.rows[parent.value].hasKey {
          return Err(ParentUnusable);
        }
        if wanted.notAfter > state.rows[parent.value].cert.value.notAfter {
          return Err(OutlivesParent);
        }
      }
      if nameTaken {
        return Err(NameTaken);
      }
      var cert := Made(state.rows, wanted, key, parent);
      StepKeepsForest(state, Create(cert, parent));
      r := Ok(|state.rows|);
      state := state.(rows := state.rows + [Row(Some(cert), parent, Active, key, true, state.clock)],
        clock := state.clock + 1);
    }

    /** Without a concurrent completion the row is still bare when it is written. */
    method CompleteSubordinate(id: nat, cert: Cert, chain: seq<Cert>, now: int)
        returns (err: Option<CaError>, ghost acts: seq<Action>)
      requires Valid() && state.requests == map[]
      modifies this
      ensures Valid() && state.requests == map[]
      ensures TimelyRun(old(state), acts) && Runs(old(state), acts) && state == After(old(state), acts)
      ensures err == None <==>
                && id < |old(state).rows| && old(state).rows[id].status.Pending?
                && GoodCa(cert, now) && cert.key == old(state).rows[id].key
      ensures err == Some(NotFound) <==> id >= |old(state).rows|
      ensures err == Some(NotPending) <==> id < |old(state).rows| && !old(state).rows[id].status.Pending?
      ensures id < |old(state).rows| && old(state).rows[id].status.Pending? ==>
                && (err == Some(NotACa) <==> !cert.isCa)
                && (err == Some(NoCertSign) <==> cert.isCa && !cert.certSign)
                && (err == Some(ExpiredCertificate) <==> cert.isCa && cert.certSign && cert.notAfter < now)
                && (err == Some(KeyMismatch) <==> GoodCa(cert, now) && cert.key != old(state).rows[id].key)
      ensures err != None ==> state == old(state)
      ensures err == None ==>
                && id < |state.rows| && state.rows[id].cert == Some(cert) && state.rows[id].status.Active?
                && state.rows[id].key == old(state).rows[id].key && state.rows[id].hasKey == old(state).rows[id].hasKey
                && |old(state).rows| <= |state.rows|
                && (forall k :: 0 <= k < |old(state).rows| && k != id ==> state.rows[k] == old(state).rows[k])
                && match state.rows[id].parent
                   case Some(p) => p != id && Issuer(state.rows, cert, p)
                   case None => SelfSigned(cert) || forall k :: 0 <= k < |state.rows| && k != id ==>
                                                                       !Issuer(state.rows, cert, k)
    {
      hide SignedBy, FreshKey, Anchored;
      acts := [];
      if id >= |state.rows| {
        return Some(NotFound), acts;
      }
      if !state.rows[id].status.Pending? {
        return Some(NotPending), acts;
      }
      var fault := Validate(cert, now);
      ValidateExact(cert, now);
      if fault.Some? {
        return fault, acts;
      }
      if cert.key != state.rows[id].key {
        return Some(KeyMismatch), acts;
      }
      ghost var before := state;
      StepKeepsForest(state, Start(0, id, cert));
      TimelySnoc(before, [], Start(0, id, cert));
      assert [] + [Start(0, id, cert)] == [Start(0, id, cert)];
      state := state.(requests := map[0 := Completion(id, cert)]);
      var parent;
      ghost var imports;
      parent, imports := LinkIssuer(cert, chain);
      TimelyOn(before, [Start(0, id, cert)], imports);
      acts := [Start(0, id, cert)] + imports;
      ghost var linked := state;
      FinishAlone(state, 0, parent);
      TimelySnoc(before, acts, Finish(0, parent));
      acts := acts + [Finish(0, parent)];
      state := State(state.rows[id := CompletedRow(state.rows[id], cert, parent, state.clock)], state.clock + 1, map[]);
      assert forall k :: 0 <= k < |state.rows| && k != id && Issuer(state.rows, cert, k) ==>
               Issuer(linked.rows, cert, k);
      return None, acts;
    }

    /** Only `active` and `disabled` are accepted, on any row. */
    method SetCAStatus(id: nat, status: Status) returns (ok: bool)
      requires Valid() && id < |state.rows|
      modifies this
      ensures Valid() && ok == !status.Pending?
      ensures state == if ok then Apply(old(state), SetStatus(id, status)) else old(state)
      ensures ok ==> state == old(state).(rows := old(state).rows[id := old(state).rows[id].(status := status)])
    {
      if status.Pending? {
        return false;
      }
      StepKeepsForest(state, SetStatus(id, status));
      state := state.(rows := state.rows[id := state.rows[id].(status := status)]);
      return true;
    }

    /**
     * The walk stops after sixteen certificates. Up to there the result is the path to the root, each
     * row of it once, and below sixteen it is the whole path: the guard never cuts a loop.
     */
    method CAChain(id: nat) returns (r: Result<seq<Cert>, CaError>)
      requires Valid() && id < |state.rows|
      ensures r.Ok? <==> state.rows[id].cert.Some?
      ensures r.Err? ==> r.error == NoCertificate
      ensures r.Ok? ==>
                && 1 <= |r.value| <= 16
                && (forall i :: 0 <= i < |r.value| ==> ChainAt(state.rows, id, i, r.value[i]))
                && (forall i, j :: 0 <= i < j < |r.value| ==> Above(state.rows, id, i) != Above(state.rows, id, j))
                && (|r.value| < 16 ==> Above(state.rows, id, |r.value|) == None)
    {
      var chain: seq<Cert> := [];
      var cur := id;
      var i := 0;
      while i < 16
        invariant i == |chain| <= 16
        invariant 0 <= cur < |state.rows|
        invariant i < 16 ==> Above(state.rows, id, i) == Some(cur)
        invariant state.rows[cur].cert.Some? || (i == 0 && cur == id)
        invariant forall j :: 0 <= j < i ==> ChainAt(state.rows, id, j, chain[j])
        invariant i > 0 ==> state.rows[id].cert.Some?
      {
        if state.rows[cur].cert.None? {
          return Err(NoCertificate);
        }
        chain := chain + [state.rows[cur].cert.value];
        i := i + 1;
        AboveSplits(state.rows, id, i - 1, 1);
        if state.rows[cur].parent.None? {
          break;
        }
        assert Linked(state.rows, cur);
        cur := state.rows[cur].parent.value;
      }
      forall a, b | 0 <= a < b < |chain|
        ensures Above(state.rows, id, a) != Above(state.rows, id, b)
      {
        AboveSplits(state.rows, id, a, b - a);
        ForestIsAcyclic(state);
        assert ChainAt(state.rows, id, a, chain[a]);
      }
      return Ok(chain);
    }
  }

  /** The `i`th ancestor exists and has this certificate. */
  predicate ChainAt(rows: seq<Row>, id: nat, i: nat, cert: Cert) {
    var a := Above(rows, id, i);
    a.Some? && a.value < |rows| && rows[a.value].cert == Some(cert)
  }

  lemma {:induction false} TimelyOn(s: State, a: seq<Action>, b: seq<Action>)
    requires TimelyRun(s, a) && Runs(s, a) && TimelyRun(After(s, a), b) && Runs(After(s, a), b)
    ensures TimelyRun(s, a + b) && Runs(s, a + b) && After(s, a + b) == After(After(s, a), b)
    decreases |a|
  {
    hide Enabled, Timely, Apply;
    if a == [] {
      assert a + b == b;
    } else {
      assert (a + b)[1..] == a[1..] + b;
      TimelyOn(Apply(s, a[0]), a[1..], b);
    }
  }

  lemma FinishAlone(s: State, pid: nat, parent: Option<nat>)
    requires Forest(s) && s.requests.Keys == {pid} && Enabled(s, Finish(pid, parent))
      && !Certified(s.rows, s.requests[pid].id)
    ensures Timely(s, Finish(pid, parent)) && Forest(Apply(s, Finish(pid, parent))) && s.requests - {pid} == map[]
  {
    StepKeepsForest(s, Finish(pid, parent));
  }

  /** A certificate that may sign others. */
  predicate SigningCa(c: Cert) {
    c.isCa && c.certSign
  }

  /** The certificate CreateCA makes: for the new key, signed by the parent's or by itself. */
  function Made(rows: seq<Row>, wanted: Cert, key: nat, parent: Option<nat>): Cert
    requires parent.Some? ==> Certified(rows, parent.value)
  {
    wanted.(key := key, signer := if parent.Some? then rows[parent.value].cert.value.key else key, isCa := true,
      certSign := true)
  }

  lemma AnchorStays(rows: seq<Row>, rows': seq<Row>, chain: seq<Cert>, k: nat)
    requires rows <= rows' && k < |rows| && Anchored(rows, chain, k)
    ensures Anchored(rows', chain, k)
  {
    assert rows'[..k] == rows[..k];
    assert forall j :: 0 <= j < k ==> (Issuer(rows, rows[k].cert.value, j) <==> Issuer(rows', rows[k].cert.value, j));
  }

  lemma AnchorAdded(rows: seq<Row>, rows': seq<Row>, chain: seq<Cert>, start: nat)
    requires start <= |rows| && |rows'| == |rows| + 1 && rows' == rows + [rows'[|rows|]]
    requires forall k :: start <= k < |rows| ==> Anchored(rows, chain, k)
    requires Anchored(rows', chain, |rows|)
    ensures forall k :: start <= k < |rows'| ==> Anchored(rows', chain, k)
  {
    forall k | start <= k < |rows|
      ensures Anchored(rows', chain, k)
    {
      AnchorStays(rows, rows', chain, k);
    }
  }

  lemma KnownStays(rows: seq<Row>, rows': seq<Row>)
    requires rows <= rows'
    ensures forall f :: Known(rows, f) ==> Known(rows', f)
  {
    forall f | Known(rows, f)
      ensures Known(rows', f)
    {
      var k :| 0 <= k < |rows| && rows[k].cert.Some? && rows[k].cert.value.fingerprint == f;
      assert rows'[k] == rows[k];
    }
  }
}
