/**
 * Secrets whose names are numerals. The server reads a reference as an id before it reads it as a name,
 * so a manifest entry whose name is another secret's id works on that secret.
 */
module ApplyNumeric {
  import opened Common
  import opened Text
  import opened Numerals
  import opened ApplyManifest
  import opened ApplyPlan
  import opened ApplyResume

  /** Applying the manifest from `s`, to its end, leaves the server at `t`. */
  ghost predicate Applies(s: State, m: Manifest, prune: bool, syntax: Syntax, t: State) {
    SoundManifest(m) && Execute(m, s, Plan(m, s, prune), syntax) == Ok(t)
  }

  /** The name of a stored secret that no manifest entry can change: a certificate. */
  predicate Foreign(s: State, name: string) {
    name in s.entries && s.entries[name].typ !in {"kv", "file"}
  }

  lemma OneEntryIsReady(s: State, d: ManifestSecret)
    requires CleanState(s) && Sound(d) && (ReadsAsOther(s.names, d.name) ==> Foreign(s, d.name))
    ensures Ready([d], s)
  {
    hide Trim, Trimmed, DistinctKeys, Clean, ParseInt, CleanEntry;
    assert Names([d]) == [d.name] && [d.name][1..] == [];
    assert Assigned([], s.entries.Keys, s.names, s.nextId) == s.names;
    assert Assigned([], s.entries.Keys, s.names[s.nextId := d.name], s.nextId + 1) == s.names[s.nextId := d.name];
  }

  /** Without a misreading, the other secrets stay as they are. */
  lemma OthersUntouched(s: State, d: ManifestSecret, prune: bool, syntax: Syntax, t: State)
    requires CleanState(s) && (ReadsAsOther(s.names, d.name) ==> Foreign(s, d.name))
      && Applies(s, [d], prune, syntax, t)
    ensures OnlyAt(s, t, d.name)
  {
    hide Sound, Plan, Execute, CleanState, Final, ReadsAsOther, Foreign;
    assert d in [d];
    OneEntryIsReady(s, d);
    CompletedPlanReachesGoal([d], s, prune, syntax, t);
    assert forall n :: n != d.name ==> !Declared([d], n);
  }

  function AnySyntax(): Syntax {
    (p: string) => true
  }

  /** An entry that changes one metadata field of a stored secret, and nothing else. */
  function Redescribed(name: string, e: Entry, description: string): ManifestSecret {
    ManifestSecret(name, e.typ, description, Some(e.labels), e.rotationDays, [])
  }

  lemma OneAction(m: Manifest, s: State, a: Action, syntax: Syntax, t: State)
    requires Step(m, s, a, syntax) == Ok(t)
    ensures Execute(m, s, [a], syntax) == Ok(t)
  {
    hide Step;
    assert [a][1..] == [];
  }

  lemma MisreadResolves(s: State, name: string) returns (n: string)
    requires CleanState(s) && ReadsAsOther(s.names, name)
    ensures n == s.names[ParseInt(name).value] && n in s.entries && n != name && Resolve(s, name) == Some(n)
  {
    hide Trim, ParseInt, CleanEntry;
    n := s.names[ParseInt(name).value];
    assert ParseInt(name).value in s.names;
    assert forall i :: i in s.names ==> s.names[i] in s.entries;
  }

  lemma RedescribedMisleads(s: State, name: string, description: string) returns (t: State)
    requires CleanState(s) && ReadsAsOther(s.names, name) && name in s.entries
    requires name != "" && Trimmed(name) && s.entries[name].typ in {"kv", "file"}
    requires description != s.entries[name].description
    requires description != s.entries[s.names[ParseInt(name).value]].description
    ensures Applies(s, [Redescribed(name, s.entries[name], description)], false, AnySyntax(), t)
    ensures !OnlyAt(s, t, name)
  {
    hide Trim, Trimmed, ParseInt, CleanEntry;
    var e := s.entries[name];
    var d := Redescribed(name, e, description);
    var n := MisreadResolves(s, name);
    assert Sound(d);
    var v := View(s, name).value;
    assert MetaChanges(d, v) == [Description];
    var a := UpdateSecret(name, [Description]);
    assert PlanOne(d, Some(v), false) == [a];
    assert Plan([d][1..], s, false) == [];
    assert Plan([d], s, false) == [a];
    assert ByName([d], name) == d;
    t := s.(entries := s.entries[n := Patched(d, s.entries[n], [Description])]);
    assert Step([d], s, a, AnySyntax()) == Ok(t);
    OneAction([d], s, a, AnySyntax(), t);
    assert Lookup(t, n) != Lookup(s, n);
  }

  /** The printed id of a secret is misread as a name by exactly those that are not called that. */
  lemma PrintedIdIsMisread(s: State, id: int)
    requires id in s.names && 0 <= id <= MAX_INT64
    ensures ReadsAsOther(s.names, Decimal(id)) <==> s.names[id] != Decimal(id)
  {
    PrintedIsRead(id);
    hide ParseInt, Decimal;
  }

  /** An entry for a secret that is not stored, with one binding. */
  function Fresh(name: string): ManifestSecret {
    ManifestSecret(name, "kv", "", None, 0, [Triple("*", "*", "*")])
  }

  lemma StarIsClean()
    ensures Clean(Triple("*", "*", "*")) && Canonicalized(Triple("*", "*", "*")) == Triple("*", "*", "*")
  {
    assert CleanField("*");
    FieldCleans("*");
  }

  lemma FreshIsSound(name: string)
    requires name != "" && Trimmed(name)
    ensures Sound(Fresh(name)) && Trim(name) == name
  {
    hide Clean, Trimmed, Key;
    StarIsClean();
    assert Fresh(name).bindings == [Triple("*", "*", "*")];
    SoundName(Fresh(name));
  }

  lemma FreshPlan(s: State, name: string)
    requires name !in s.entries
    ensures Plan([Fresh(name)], s, false) == [CreateSecret(name), Bind(name, Key(Triple("*", "*", "*")))]
  {
    hide Key;
    var d, b := Fresh(name), Triple("*", "*", "*");
    assert Binds(name, [b]) == [Bind(name, Key(b))];
    assert Plan([d][1..], s, false) == [];
  }

  /** The server once the secret is created, and once its binding has gone to another. */
  function Created(s: State, name: string): State {
    State(s.entries[name := Entry("kv", "", map[], 0, [])], s.names[s.nextId := name], s.nextId + 1)
  }

  lemma FreshCreates(s: State, name: string)
    requires name != "" && Trim(name) == name && name !in s.entries
    ensures Step([Fresh(name)], s, CreateSecret(name), AnySyntax()) == Ok(Created(s, name))
  {
    hide Trim;
    assert ByName([Fresh(name)], name) == Fresh(name);
  }

  lemma FreshBinds(u: State, name: string, n: string)
    requires Resolve(u, name) == Some(n) && n in u.entries
    ensures var b := Triple("*", "*", "*");
            Step([Fresh(name)], u, Bind(name, Key(b)), AnySyntax())
            == Ok(u.(entries := u.entries[n := u.entries[n].(rows := u.entries[n].rows + [b])]))
  {
    StarIsClean();
    hide Resolve, Canonicalized, Clean, Key;
    var b := Triple("*", "*", "*");
    assert FindByKey([b], Key(b)) == Some(b);
    assert ByName([Fresh(name)], name) == Fresh(name);
  }

  lemma FreshMisleads(s: State, name: string) returns (t: State)
    requires CleanState(s) && ReadsAsOther(s.names, name) && name !in s.entries && name != "" && Trimmed(name)
    ensures Applies(s, [Fresh(name)], false, AnySyntax(), t)
    ensures !OnlyAt(s, t, name)
  {
    hide Trim, Trimmed, ParseInt, CleanState, ReadsAsOther, Key, Sound, Plan, Step, Resolve, Execute, AnySyntax, Fresh;
    FreshIsSound(name);
    var n := MisreadResolves(s, name);
    var b := Triple("*", "*", "*");
    var c, bind := CreateSecret(name), Bind(name, Key(b));
    FreshPlan(s, name);
    FreshCreates(s, name);
    var u := Created(s, name);
    StillMisread(s, name, n);
    FreshBinds(u, name, n);
    t := u.(entries := u.entries[n := u.entries[n].(rows := u.entries[n].rows + [b])]);
    TwoActions([Fresh(name)], s, c, u, bind, AnySyntax(), t);
    RowAdded(s, t, n, b);
  }

  lemma TwoActions(m: Manifest, s: State, a: Action, u: State, b: Action, syntax: Syntax, t: State)
    requires Step(m, s, a, syntax) == Ok(u) && Step(m, u, b, syntax) == Ok(t)
    ensures Execute(m, s, [a, b], syntax) == Ok(t)
  {
    hide Step;
    OneAction(m, u, b, syntax, t);
    assert [a, b][1..] == [b];
  }

  lemma RowAdded(s: State, t: State, n: string, b: Triple)
    requires n in s.entries && n in t.entries && t.entries[n].rows == s.entries[n].rows + [b]
    ensures Lookup(t, n) != Lookup(s, n)
  {
    assert |t.entries[n].rows| > |s.entries[n].rows|;
  }

  lemma StillMisread(s: State, name: string, n: string)
    requires CleanState(s) && ReadsAsOther(s.names, name) && Resolve(s, name) == Some(n)
      && n == s.names[ParseInt(name).value]
    ensures Resolve(Created(s, name), name) == Some(n)
  {
    hide Trim, ParseInt, CleanEntry;
    assert ParseInt(name).value in s.names;
  }

  function Longer(a: string, b: string): string {
    a + b + "x"
  }

  /** An application of an entry of this name that touches another secret. */
  ghost predicate Misleads(s: State, name: string, d: ManifestSecret, prune: bool, syntax: Syntax, t: State) {
    d.name == name && Applies(s, [d], prune, syntax, t) && !OnlyAt(s, t, name)
  }

  lemma MisreadMisleads(s: State, name: string) returns (d: ManifestSecret, t: State)
    requires CleanState(s) && name != "" && Trimmed(name)
    requires ReadsAsOther(s.names, name) && !Foreign(s, name)
    ensures Misleads(s, name, d, false, AnySyntax(), t)
  {
    hide Applies, OnlyAt, Trimmed, ReadsAsOther, AnySyntax;
    if name in s.entries {
      var n := MisreadResolves(s, name);
      var description := Longer(s.entries[name].description, s.entries[n].description);
      assert |description| > |s.entries[name].description| && |description| > |s.entries[n].description|;
      d := Redescribed(name, s.entries[name], description);
      t := RedescribedMisleads(s, name, description);
    } else {
      d := Fresh(name);
      t := FreshMisleads(s, name);
    }
  }

  /**
   * Whatever an entry of this name declares, applying it leaves the other secrets as they are exactly if
   * the name is not read as the id of one of them, or is that of a certificate.
   */
  lemma OthersUntouchedIff(s: State, name: string)
    requires CleanState(s) && name != "" && Trimmed(name)
    ensures (forall d, prune, syntax, t :: !Misleads(s, name, d, prune, syntax, t))
       <==> !ReadsAsOther(s.names, name) || Foreign(s, name)
  {
    hide Applies, OnlyAt, Trimmed, ReadsAsOther, Foreign, AnySyntax;
    if ReadsAsOther(s.names, name) && !Foreign(s, name) {
      var d, t := MisreadMisleads(s, name);
      assert Misleads(s, name, d, false, AnySyntax(), t);
    } else {
      forall d, prune, syntax, t
        ensures !Misleads(s, name, d, prune, syntax, t)
      {
        if d.name == name && Applies(s, [d], prune, syntax, t) {
          OthersUntouched(s, d, prune, syntax, t);
        }
      }
    }
  }

  // ---------- a whole manifest, applied and applied again ----------

  /** One complete application: what was applied, and where it led. */
  datatype Application = Application(m: Manifest, prune: bool, syntax: Syntax, to: State)

  ghost predicate Applied(s: State, a: Application) {
    Applies(s, a.m, a.prune, a.syntax, a.to)
  }

  ghost predicate Within(m: Manifest, ns: seq<string>) {
    forall d :: d in m ==> d.name in ns
  }

  /** Every secret, declared or not, is where the manifest wants it. */
  ghost predicate AtGoal(s: State, a: Application) {
    forall n :: Lookup(a.to, n) == Goal(a.m, s, a.prune, n)
  }

  /** A manifest over these names is applied, then one over some of them. */
  ghost predicate TwoApplied(s: State, ns: seq<string>, a: Application, b: Application) {
    Names(a.m) == ns && Applied(s, a) && Within(b.m, ns) && Applied(a.to, b)
  }

  ghost predicate ValidNames(ns: seq<string>) {
    Distinct(ns) && forall n :: n in ns ==> n != "" && Trimmed(n)
  }

  /** Ids given out so far or by creating what is missing of the list, in its order, mislead no name of it. */
  ghost predicate NoneMisread(s: State, ns: seq<string>) {
    forall n :: n in ns ==> Foreign(s, n) || !ReadsAsOther(Future(ns, s), n)
  }

  lemma NamesInManifest(m: Manifest)
    ensures forall d :: d in m ==> d.name in Names(m)
    ensures forall n :: n in Names(m) ==> exists d :: d in m && d.name == n
  {
    forall d | d in m
      ensures d.name in Names(m)
    {
      var i :| 0 <= i < |m| && m[i] == d;
      assert Names(m)[i] == d.name;
    }
    forall n | n in Names(m)
      ensures exists d :: d in m && d.name == n
    {
      var i :| 0 <= i < |m| && m[i].name == n;
      assert m[i] in m;
    }
  }

  lemma ForeignConflicts(s: State, d: ManifestSecret)
    requires Sound(d) && Foreign(s, d.name)
    ensures Conflicts(s, d)
  {
    hide Trimmed, DistinctKeys, Clean;
  }

  /** The first application starts ready, and every id it gives out is as expected. */
  lemma FirstApplication(s: State, a: Application)
    requires CleanState(s) && NoneMisread(s, Names(a.m)) && Applied(s, a)
    ensures AtGoal(s, a) && Ready(a.m, a.to) && Future(Names(a.m), a.to) == Future(Names(a.m), s)
  {
    hide Sound, DistinctNames, CleanState, Plan, Execute, Future, Names, Foreign, ReadsAsOther, Conflicts, Goal;
    NamesInManifest(a.m);
    forall d | d in a.m
      ensures Conflicts(s, d) || !ReadsAsOther(Future(Names(a.m), s), d.name)
    {
      if Foreign(s, d.name) {
        ForeignConflicts(s, d);
      }
    }
    var p := Plan(a.m, s, a.prune);
    assert p[..|p|] == p;
    CompletedPlanReachesGoal(a.m, s, a.prune, a.syntax, a.to);
    PlanAgain(a.m, s, a.prune, a.syntax, |p|, a.to);
  }

  lemma {:induction false} NothingMissing(ns: seq<string>, present: set<string>, names: map<int, string>, next: int)
    requires forall n :: n in ns ==> n in present
    ensures Assigned(ns, present, names, next) == names
  {
    if ns != [] {
      NothingMissing(ns[1..], present, names, next);
    }
  }

  /** Declared secrets are stored at their goal, and certificates stay certificates. */
  lemma DeclaredAreStored(s: State, a: Application)
    requires AtGoal(s, a)
    ensures forall n :: n in Names(a.m) ==> n in a.to.entries
    ensures forall n :: Foreign(s, n) && SoundManifest(a.m) ==> Foreign(a.to, n)
  {
    hide DistinctNames, Sound, Missing, Kept, Keys, Names;
    NamesInManifest(a.m);
    forall n | n in Names(a.m)
      ensures n in a.to.entries
    {
      assert Lookup(a.to, n) == Goal(a.m, s, a.prune, n);
    }
    forall n | Foreign(s, n) && SoundManifest(a.m)
      ensures Foreign(a.to, n)
    {
      assert Lookup(a.to, n) == Goal(a.m, s, a.prune, n);
      if Declared(a.m, n) {
        var d :| d in a.m && d.name == n;
        ByNameExact(a.m, d);
        ForeignConflicts(s, d);
      }
    }
  }

  lemma SecondApplication(s: State, ns: seq<string>, a: Application, b: Application)
    requires CleanState(s) && NoneMisread(s, ns) && TwoApplied(s, ns, a, b)
    ensures AtGoal(s, a) && AtGoal(a.to, b)
  {
    hide Sound, DistinctNames, CleanState, Plan, Execute, Names, Foreign, ReadsAsOther, Conflicts, AtGoal, Lookup;
    FirstApplication(s, a);
    DeclaredAreStored(s, a);
    NothingMissing(ns, a.to.entries.Keys, a.to.names, a.to.nextId);
    NamesInManifest(b.m);
    NothingMissing(Names(b.m), a.to.entries.Keys, a.to.names, a.to.nextId);
    assert forall n :: n in ns ==> Foreign(a.to, n) || !ReadsAsOther(Future(Names(b.m), a.to), n);
    FirstApplication(a.to, b);
  }

  /** The manifest over these names that asks for nothing but that they exist. */
  function InertEntry(s: State, n: string): ManifestSecret {
    if n in s.entries && !Foreign(s, n) then
      var e := s.entries[n];
      ManifestSecret(n, e.typ, e.description, Some(e.labels), e.rotationDays, [])
    else ManifestSecret(n, "kv", "", Some(map[]), 0, [])
  }

  function Inert(s: State, ns: seq<string>): Manifest {
    seq(|ns|, i requires 0 <= i < |ns| => InertEntry(s, ns[i]))
  }

  lemma InertEntryIsSound(s: State, n: string)
    requires n != "" && Trimmed(n)
    ensures InertEntry(s, n).name == n && Sound(InertEntry(s, n))
  {
    hide Trimmed;
  }

  lemma InertIsSound(s: State, ns: seq<string>)
    requires ValidNames(ns)
    ensures SoundManifest(Inert(s, ns)) && Names(Inert(s, ns)) == ns
  {
    hide Trimmed, InertEntry, Clean, DistinctKeys;
    var m := Inert(s, ns);
    forall i | 0 <= i < |ns|
      ensures m[i].name == ns[i] && Sound(m[i])
    {
      assert ns[i] in ns;
      InertEntryIsSound(s, ns[i]);
    }
    assert Names(m) == ns;
  }

  function CreatedBlank(s: State, n: string): State {
    State(s.entries[n := Entry("kv", "", map[], 0, [])], s.names[s.nextId := n], s.nextId + 1)
  }

  /** Creating what is missing of the list, in its order. */
  function Filled(ns: seq<string>, s: State): State {
    if ns == [] then s
    else Filled(ns[1..], if ns[0] in s.entries then s else CreatedBlank(s, ns[0]))
  }

  lemma {:induction false} FilledNames(ns: seq<string>, s: State)
    requires Distinct(ns)
    ensures Filled(ns, s).names == Assigned(ns, s.entries.Keys, s.names, s.nextId)
  {
    if ns != [] {
      assert forall i :: 0 <= i < |ns[1..]| ==> ns[1..][i] == ns[i + 1];
      if ns[0] in s.entries {
        FilledNames(ns[1..], s);
      } else {
        var t := CreatedBlank(s, ns[0]);
        FilledNames(ns[1..], t);
        assert t.entries.Keys == s.entries.Keys + {ns[0]};
        AssignedElsewhere(ns[1..], s.entries.Keys, t.names, t.nextId, ns[0]);
      }
    }
  }

  lemma BlankIsClean()
    ensures CleanEntry(Some(Entry("kv", "", map[], 0, [])))
  {
  }

  lemma {:induction false} FilledHolds(ns: seq<string>, s: State)
    requires CleanState(s)
    ensures CleanState(Filled(ns, s))
    ensures forall n :: n in s.entries ==> n in Filled(ns, s).entries && Filled(ns, s).entries[n] == s.entries[n]
    ensures forall n :: n in ns ==> n in Filled(ns, s).entries && (Foreign(Filled(ns, s), n) ==> Foreign(s, n))
  {
    hide CleanEntry;
    if ns != [] {
      var t := if ns[0] in s.entries then s else CreatedBlank(s, ns[0]);
      BlankIsClean();
      FilledHolds(ns[1..], t);
      assert forall n :: n in ns ==> n == ns[0] || n in ns[1..];
    }
  }

  /** What planning for one inert entry gives, and what executing that does. */
  lemma InertStep(m: Manifest, s0: State, s: State, n: string)
    requires n != "" && Trimmed(n) && ByName(m, n) == InertEntry(s0, n) && (n in s.entries <==> n in s0.entries)
    ensures var acts := PlanOne(InertEntry(s0, n), View(s0, n), false);
            && |acts| <= 1
            && Execute(m, s, acts, AnySyntax()) == Ok(if n in s.entries then s else CreatedBlank(s, n))
  {
    hide Resolve, Trim, Trimmed, ByName;
    var d := InertEntry(s0, n);
    if n !in s0.entries {
      var a := CreateSecret(n);
      assert PlanOne(d, View(s0, n), false) == [a];
      assert Trim(n) == n;
      OneAction(m, s, a, AnySyntax(), CreatedBlank(s, n));
    } else if Foreign(s0, n) {
      var a := UpdateSecret(n, []);
      assert PlanOne(d, View(s0, n), false) == [a];
      EmptyUpdateIsNoOp(m, s, a, AnySyntax());
      OneAction(m, s, a, AnySyntax(), s);
    } else {
      assert MetaChanges(d, View(s0, n).value) == [];
      assert PlanOne(d, View(s0, n), false) == [];
    }
  }

  lemma {:induction false} InertRuns(m: Manifest, ns: seq<string>, s0: State, s: State)
    requires ValidNames(ns) && forall n :: n in ns ==>
      ByName(m, n) == InertEntry(s0, n) && (n in s.entries <==> n in s0.entries)
    ensures Execute(m, s, Plan(Inert(s0, ns), s0, false), AnySyntax()) == Ok(Filled(ns, s))
  {
    hide PlanOne, Step, View, ByName, InertEntry, Trimmed, AnySyntax;
    if ns != [] {
      assert forall i :: 0 <= i < |ns[1..]| ==> ns[1..][i] == ns[i + 1];
      var n := ns[0];
      assert n in ns && n !in ns[1..];
      var acts, rest := PlanOne(InertEntry(s0, n), View(s0, n), false), Plan(Inert(s0, ns[1..]), s0, false);
      assert Inert(s0, ns)[1..] == Inert(s0, ns[1..]);
      InertEntryIsSound(s0, n);
      assert Plan(Inert(s0, ns), s0, false) == acts + rest;
      InertStep(m, s0, s, n);
      ExecuteParts(m, s, acts, rest, AnySyntax());
      InertRuns(m, ns[1..], s0, if n in s.entries then s else CreatedBlank(s, n));
    }
  }

  /** A name misread at the end of the first application misleads the second. */
  lemma MisreadIsNoticed(s: State, ns: seq<string>, n: string) returns (a: Application, b: Application)
    requires CleanState(s) && ValidNames(ns) && n in ns && !Foreign(s, n) && ReadsAsOther(Future(ns, s), n)
    ensures TwoApplied(s, ns, a, b) && !AtGoal(a.to, b)
  {
    hide CleanState, Plan, Execute, Trimmed, ReadsAsOther, Foreign, AnySyntax, Sound;
    var m, t := Inert(s, ns), Filled(ns, s);
    InertIsSound(s, ns);
    forall x | x in ns
      ensures ByName(m, x) == InertEntry(s, x)
    {
      InertIsByName(s, ns, x);
    }
    InertRuns(m, ns, s, s);
    a := Application(m, false, AnySyntax(), t);
    FilledNames(ns, s);
    FilledHolds(ns, s);
    var d, u := MisreadMisleads(t, n);
    b := Application([d], false, AnySyntax(), u);
    assert Within(b.m, ns);
    MissesGoal(t, n, d, u);
  }

  lemma InertIsByName(s: State, ns: seq<string>, n: string)
    requires ValidNames(ns) && n in ns
    ensures ByName(Inert(s, ns), n) == InertEntry(s, n)
  {
    hide Sound, InertEntry;
    InertIsSound(s, ns);
    InertEntryIsSound(s, n);
    var i :| 0 <= i < |ns| && ns[i] == n;
    assert Inert(s, ns)[i] == InertEntry(s, n);
    ByNameExact(Inert(s, ns), InertEntry(s, n));
  }

  lemma MissesGoal(t: State, n: string, d: ManifestSecret, u: State)
    requires d.name == n && !OnlyAt(t, u, n)
    ensures !AtGoal(t, Application([d], false, AnySyntax(), u))
  {
    var x :| x != n && Lookup(u, x) != Lookup(t, x);
    assert !Declared([d], x);
    assert Lookup(u, x) != Goal([d], t, false, x);
  }

  /**
   * Whatever manifest over these names is applied, and whatever manifest over some of them afterwards,
   * both leave every secret at its goal, exactly if no name of the list reads as an id that another secret
   * has or is given by the first, names of certificates apart.
   */
  lemma GoalsReachedIff(s: State, ns: seq<string>)
    requires CleanState(s) && ValidNames(ns)
    ensures (forall a, b :: TwoApplied(s, ns, a, b) ==> AtGoal(s, a) && AtGoal(a.to, b)) <==> NoneMisread(s, ns)
  {
    hide CleanState, ValidNames, TwoApplied, AtGoal, Foreign, ReadsAsOther, Future;
    if NoneMisread(s, ns) {
      forall a, b | TwoApplied(s, ns, a, b)
        ensures AtGoal(s, a) && AtGoal(a.to, b)
      {
        SecondApplication(s, ns, a, b);
      }
    } else {
      var n :| n in ns && !Foreign(s, n) && ReadsAsOther(Future(ns, s), n);
      var a, b := MisreadIsNoticed(s, ns, n);
      assert TwoApplied(s, ns, a, b);
    }
  }

  /** The entry "7" on a server whose secret "x" has the id 7: "x" is patched. */
  lemma SevenMisleads(e: Entry, description: string)
    requires CleanEntry(Some(e)) && description != e.description && description != ""
    ensures var s := State(map["x" := e, "7" := Entry("kv", "", map[], 0, [])], map[7 := "x", 8 := "7"], 9);
            var d := ManifestSecret("7", "kv", description, Some(map[]), 0, []);
            exists t :: Applies(s, [d], false, AnySyntax(), t) && Lookup(t, "x") == Some(e.(description := description))
  {
    var seven := Entry("kv", "", map[], 0, []);
    var s := State(map["x" := e, "7" := seven], map[7 := "x", 8 := "7"], 9);
    var d := ManifestSecret("7", "kv", description, Some(map[]), 0, []);
    SevenIsNumeral();
    hide Trim, Trimmed, ParseInt, CleanEntry;
    assert Resolve(s, "7") == Some("x");
    var a := UpdateSecret("7", [Description]);
    assert MetaChanges(d, View(s, "7").value) == [Description];
    assert PlanOne(d, View(s, "7"), false) == [a];
    assert Plan([d][1..], s, false) == [] && Plan([d], s, false) == [a];
    assert ByName([d], "7") == d;
    var t := s.(entries := s.entries["x" := Patched(d, e, [Description])]);
    assert Step([d], s, a, AnySyntax()) == Ok(t);
    OneAction([d], s, a, AnySyntax(), t);
    assert Applies(s, [d], false, AnySyntax(), t);
  }

  /**
   * The same server with a binding on "x": an entry "7" that declares it plans nothing, pruning or not,
   * so the secret "7" never gets it.
   */
  lemma BorrowedBindingIsNeverStored(e: Entry, b: Triple, prune: bool)
    requires e.rows == [b] && Clean(b)
    ensures var s := State(map["x" := e, "7" := Entry("kv", "", map[], 0, [])], map[7 := "x", 8 := "7"], 9);
            && Plan([ManifestSecret("7", "kv", "", Some(map[]), 0, [b])], s, prune) == []
            && s.entries["7"].rows == []
  {
    var s := State(map["x" := e, "7" := Entry("kv", "", map[], 0, [])], map[7 := "x", 8 := "7"], 9);
    var d := ManifestSecret("7", "kv", "", Some(map[]), 0, [b]);
    SevenIsNumeral();
    CanonicalizedIsClean(b);
    hide Trim, Trimmed, ParseInt, Clean;
    assert Resolve(s, "7") == Some("x");
    var v := View(s, "7").value;
    assert v.rows == [b] && MetaChanges(d, v) == [];
    assert [b][1..] == [] && Missing([b], [b]) == [];
    assert Key(b) in Keys([b]) && RowKey(b) == Key(b) && Undeclared([b], Keys([b])) == [];
    assert BindingPlan(d, [b], prune) == [];
    assert Plan([d][1..], s, prune) == [];
  }

  /**
   * An empty server whose next id is 9: the manifest "a", "9" gives that id to "a", which later binds for
   * "9" then reach; in the other order "9" gets the id 9 itself.
   */
  lemma OrderDecides()
    ensures var s := State(map[], map[], 9);
            && ValidNames(["a", "9"]) && !NoneMisread(s, ["a", "9"])
            && ValidNames(["9", "a"]) && NoneMisread(s, ["9", "a"])
  {
    var s := State(map[], map[], 9);
    NumeralNine();
    hide ParseInt, Trimmed;
    assert ["a", "9"][1..] == ["9"] && ["9"][1..] == [] && ["9", "a"][1..] == ["a"] && ["a"][1..] == [];
    assert Assigned(["9"], {}, map[9 := "a"], 10) == map[9 := "a", 10 := "9"];
    assert Assigned(["a"], {}, map[9 := "9"], 10) == map[9 := "9", 10 := "a"];
    assert Future(["a", "9"], s) == map[9 := "a", 10 := "9"] && Future(["9", "a"], s) == map[9 := "9", 10 := "a"];
    assert ReadsAsOther(Future(["a", "9"], s), "9") && "9" in ["a", "9"];
  }

  lemma NumeralNine()
    ensures ParseInt("9") == Some(9) && ParseInt("a") == None && Trimmed("9") && Trimmed("a") && "a" != "9"
  {
    assert "9"[..0] == "" && Value("9") == 9;
    assert "a"[0] != "9"[0];
  }

  lemma SevenIsNumeral()
    ensures ParseInt("7") == Some(7) && Trimmed("7") && "x" != "7"
  {
    assert "7"[..0] == "" && Value("7") == 7;
    assert "x"[0] != "7"[0];
  }
}
