/** The rules about names and profiles that goca plugs into its orders, and why they are lawful. */
module AcmeRules {
  import opened Common
  import opened Text
  import opened Sans
  import opened AcmeNames
  import opened AcmeOrders

  /** Library behaviour the service relies on: addresses and URIs as text, and globbing. */
  datatype Library = Library(net: Net, glob: Glob)

  function AddressSyntax(net: Net): string -> bool {
    (v: string) => net.parseIp(v).Some?
  }

  /** Sign reads a common name as a SAN when a server certificate has none. */
  function Promotion(net: Net): string -> Option<SanSet> {
    (cn: string) => ToOption(Parsed(net, [cn]))
  }

  /** CreateEAB refuses unknown profiles and the intermediate-ca profile. */
  predicate LeafProfile(profile: string) {
    ParseProfile(profile).Some? && !ParseProfile(profile).value.IntermediateCa?
  }

  /** The profiles a credential may have: every known one but intermediate-ca. */
  lemma LeafProfiles(profile: string)
    ensures LeafProfile(profile)
       <==> Lower(Trim(profile)) in {"", "server", "client", "server-client", "both", "server+client", "serverclient",
                                     "code-signing", "email"}
  {
    hide ParseProfile, Lower, Trim;
    ProfileNames(profile);
    DistinctProfileNames();
  }

  predicate Admits(lib: Library, patterns: seq<string>, v: string) {
    HostCheck(v, AddressSyntax(lib.net)) == None && DomainAllowed(patterns, v, lib.glob)
  }

  function Rules(lib: Library): Env {
    Env((raws: seq<string>, allowAny: bool) => ToOption(CredentialScope(raws, allowAny, lib.glob)),
        (profile: string) => LeafProfile(profile),
        (requested: seq<Requested>, patterns: seq<string>) =>
          ToOption(OrderIdentifiers(requested, patterns, AddressSyntax(lib.net), lib.glob)),
        (idents: seq<string>, csr: Csr) => ToOption(CsrCheck(idents, csr)),
        (csr: Csr, cn: string, profile: string) =>
          ToOption(IssueNames(csr, cn, ParseProfile(profile), false, Promotion(lib.net))),
        (patterns: seq<string>, v: string) => Admits(lib, patterns, v))
  }

  /** What the checks of NewOrder admit are host names in the credential's scope. */
  lemma AdmitsExact(lib: Library, patterns: seq<string>, v: string)
    ensures Admits(lib, patterns, v) <==> AdmittedName(v, patterns, AddressSyntax(lib.net), lib.glob)
  {
    HostCheckExact(v, AddressSyntax(lib.net));
    hide DomainAllowed, HostCheck, IsHostName;
  }

  lemma IdentifiersAreAdmitted(lib: Library, patterns: seq<string>, requested: seq<Requested>)
    requires OrderIdentifiers(requested, patterns, AddressSyntax(lib.net), lib.glob).Ok?
    ensures var idents := OrderIdentifiers(requested, patterns, AddressSyntax(lib.net), lib.glob).value;
            idents != [] && forall v :: v in idents ==> Admits(lib, patterns, v)
  {
    hide AdmittedName, Admits, IdentifiersFrom, Lower, Trim;
    IdentifiersAreGranted(requested, [], patterns, AddressSyntax(lib.net), lib.glob);
    var idents := OrderIdentifiers(requested, patterns, AddressSyntax(lib.net), lib.glob).value;
    forall k | 0 <= k < |idents|
      ensures Admits(lib, patterns, idents[k])
    {
      assert Granted(requested[k - 0], idents[k], patterns, AddressSyntax(lib.net), lib.glob);
      AdmitsExact(lib, patterns, idents[k]);
    }
  }

  /** ACME credentials always carry a profile that issues leaves. */
  lemma LeafProfileIssues(csr: Csr, cn: string, profile: string, promote: string -> Option<SanSet>)
    requires LeafProfile(profile)
    ensures IssueNames(csr, cn, ParseProfile(profile), false, promote).Ok?
  {
    hide ParseProfile;
  }

  lemma CertificateNamesOrder(lib: Library, idents: seq<string>, csr: Csr, profile: Option<Profile>,
      patterns: seq<string>)
    requires idents != [] && forall v :: v in idents ==> Admits(lib, patterns, v)
    requires CsrCheck(idents, csr).Ok?
      && IssueNames(csr, CsrCheck(idents, csr).value, profile, false, Promotion(lib.net)).Ok?
    ensures NamesExactly(IssueNames(csr, CsrCheck(idents, csr).value, profile, false, Promotion(lib.net)).value, idents)
  {
    hide CsrCheck, NamesExactly, IssueNames, Admits, IsHostName, DomainAllowed;
    forall v | v in idents
      ensures Canonical(v)
    {
      AdmitsExact(lib, patterns, v);
      HostNameIsCanonical(v, AddressSyntax(lib.net));
    }
    FinalizedNamesExact(idents, csr, profile, Promotion(lib.net));
  }

  lemma RulesAreLawful(lib: Library)
    ensures Lawful(Rules(lib))
  {
    hide OrderIdentifiers, CsrCheck, IssueNames, NamesExactly, Admits, LeafProfile, CredentialScope, ParseProfile;
    var env := Rules(lib);
    forall requested: seq<Requested>, patterns: seq<string> | env.identifiers(requested, patterns).Some?
      ensures AllAdmitted(env, patterns, env.identifiers(requested, patterns).value)
    {
      IdentifiersAreAdmitted(lib, patterns, requested);
    }
    forall idents: seq<string>, csr: Csr, profile: string | env.commonName(idents, csr).Some? && env.profileOk(profile)
      ensures env.leaf(csr, env.commonName(idents, csr).value, profile).Some?
    {
      LeafProfileIssues(csr, env.commonName(idents, csr).value, profile, Promotion(lib.net));
    }
    forall idents: seq<string>, csr: Csr, profile: string, patterns: seq<string>
      | AllAdmitted(env, patterns, idents) && env.commonName(idents, csr).Some?
        && env.leaf(csr, env.commonName(idents, csr).value, profile).Some?
      ensures NamesExactly(env.leaf(csr, env.commonName(idents, csr).value, profile).value, idents)
    {
      assert forall v :: v in idents ==> env.admits(patterns, v) == Admits(lib, patterns, v);
      CertificateNamesOrder(lib, idents, csr, ParseProfile(profile), patterns);
    }
  }

  /**
   * In every run under goca's rules, a certificate issued by a finalize request names exactly its
   * order's identifiers and nothing else, is no CA, and every identifier is a host name that the
   * account's credential admits.
   */
  lemma IssuedNamesAreHostNames(lib: Library, acts: seq<Action>, c: nat)
    requires Runs(Rules(lib), EMPTY, acts)
    requires c < |After(Rules(lib), EMPTY, acts).certificates|
      && After(Rules(lib), EMPTY, acts).certificates[c].origin.Some?
    ensures var s := After(Rules(lib), EMPTY, acts);
            var o := s.certificates[c].origin.value;
            && o < |s.orders| && CredentialOf(s, o).Some?
            && NamesExactly(s.certificates[c].leaf, s.orders[o].idents)
            && forall v :: v in s.orders[o].idents ==>
                 AdmittedName(v, CredentialOf(s, o).value.patterns, AddressSyntax(lib.net), lib.glob)
  {
    hide Runs, After, NamesExactly, AdmittedName, Admits, Lawful, CredentialOf;
    var env := Rules(lib);
    RulesAreLawful(lib);
    IssuedNamesAreAdmitted(env, acts, c);
    var s := After(env, EMPTY, acts);
    var o := s.certificates[c].origin.value;
    forall v | v in s.orders[o].idents
      ensures AdmittedName(v, CredentialOf(s, o).value.patterns, AddressSyntax(lib.net), lib.glob)
    {
      AdmitsExact(lib, CredentialOf(s, o).value.patterns, v);
    }
  }

  // ---------- an order that is invalid, then valid ----------

  const A := "a"
  const REQUESTED_A := [Requested("", A)]
  const CSR_A := Csr(SanSet([A], [], [], []), "", [])

  lemma HostA(isAddress: string -> bool)
    requires !isAddress(A)
    ensures HostCheck(A, isAddress) == None && Lower(Trim(A)) == A
  {
    assert IsLabel(A) && !("*." <= A) && '*' !in A && Trimmed(A);
    SplitOfJoin([A], '.');
    assert Lower(A) == A;
  }

  lemma HostAIsAdmitted(isAddress: string -> bool, glob: Glob)
    requires !isAddress(A)
    ensures OrderIdentifiers(REQUESTED_A, [], isAddress, glob) == Ok([A])
  {
    HostA(isAddress);
    hide HostCheck, Lower, Trim;
    assert Lower(Trim("")) == "";
    assert IdentifierCheck(REQUESTED_A[0], [], isAddress, glob) == Ok(A);
    assert REQUESTED_A[1..] == [] && [] + [A] == [A];
    assert IdentifiersFrom([], [A], [], isAddress, glob) == Ok([A]);
  }

  lemma CsrAFits()
    ensures CsrCheck([A], CSR_A).Ok?
  {
    hide Trim;
    assert Lower(Trim("")) == "" && Lower(A) == A;
    assert LowerSet([A]) == {A} == ElementsOf([A]);
  }

  lemma AnyDomain(glob: Glob)
    ensures CredentialScope([], true, glob) == Ok([]) && LeafProfile("")
  {
    hide Normal;
    assert Lower(Trim("")) == "";
  }

  lemma PlaceableA(lib: Library)
    requires lib.net.parseIp(A).None?
    ensures Placeable(Rules(lib), [], true, "", REQUESTED_A, CSR_A)
  {
    hide OrderIdentifiers, CsrCheck, CredentialScope, LeafProfile, IssueNames, Admits, Promotion, ParseProfile, Trim,
      Lower;
    HostAIsAdmitted(AddressSyntax(lib.net), lib.glob);
    CsrAFits();
    AnyDomain(lib.glob);
    var env := Rules(lib);
    assert env.scope([], true) == Some([]);
    assert env.identifiers(REQUESTED_A, []) == Some([A]);
  }

  /** goca's own rules let it happen: a credential for any domain, one order for the host "a", two requests. */
  lemma InvalidThenValid(lib: Library)
    requires lib.net.parseIp(A).None?
    ensures var losing := Losing([], true, "", REQUESTED_A, CSR_A);
            var acts := losing + [Issue(1), Action.Link(1)];
            && Runs(Rules(lib), EMPTY, losing) && |After(Rules(lib), EMPTY, losing).orders| == 1
            && After(Rules(lib), EMPTY, losing).orders[0].status.Invalid?
            && Runs(Rules(lib), EMPTY, acts) && |After(Rules(lib), EMPTY, acts).orders| >= 1
            && After(Rules(lib), EMPTY, acts).orders[0].status.Valid?
  {
    hide Runs, After, Losing, Lawful, Placeable, Rules;
    RulesAreLawful(lib);
    PlaceableA(lib);
    InvalidBecomesValid(Rules(lib), [], true, "", REQUESTED_A, CSR_A);
  }
}
