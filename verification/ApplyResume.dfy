/**
 * `gocactl apply` over a whole manifest: stopping after any action and applying again reaches the
 * same server state, and when planning again afterwards finds nothing to do.
 */
module ApplyResume {
  import opened Common
  import opened Text
  import opened Numerals
  import opened ApplyManifest
  import opened ApplyPlan

  lemma {:induction false} ByNameExact(m: Manifest, d: ManifestSecret)
    requires DistinctNames(m) && d in m
    ensures ByName(m, d.name) == d
  {
    var last := m[|m| - 1];
    if last != d {
      var i :| 0 <= i < |m| && m[i] == d;
      assert m[..|m| - 1][i] == d;
      ByNameExact(m[..|m| - 1], d);
    }
  }

  lemma NamesInPlan(d: ManifestSecret, e: Option<Entry>, prune: bool)
    ensures forall a :: a in PlanOne(d, e, prune) ==> a.secret == d.name
  {
    hide Missing, Undeclared, Key, RowKey, MetaChanges;
  }

  function LeftoverIn(m: Manifest, a: Action): seq<Action> {
    Leftover(ByName(m, a.secret), a)
  }

  function Leftovers(m: Manifest, acts: seq<Action>): seq<Action> {
    if acts == [] then [] else Leftovers(m, acts[..|acts| - 1]) + LeftoverIn(m, acts[|acts| - 1])
  }

  ghost predicate Spent(m: Manifest, acts: seq<Action>) {
    forall a :: a in acts ==> LeftoverIn(m, a) == [a]
  }

  ghost predicate OnlyAt(s: State, t: State, name: string) {
    forall n :: n != name ==> Lookup(t, n) == Lookup(s, n)
  }

  /** The server will refuse the patterns of the binding that the action stores. */
  ghost predicate RefusedBind(m: Manifest, a: Action, syntax: Syntax) {
    a.Bind? && exists b :: b in ByName(m, a.secret).bindings && Key(b) == a.key && !PatternsOk(b, syntax)
  }

  /** The plan if every declared name refers to its own secret. */
  function OwnPlan(ms: Manifest, s: State, prune: bool): seq<Action> {
    if ms == [] then [] else PlanOne(ms[0], Lookup(s, ms[0].name), prune) + OwnPlan(ms[1..], s, prune)
  }

  /** The name refers to the secret of that name, or to none. */
  predicate RefersToItself(s: State, name: string) {
    Resolve(s, name) == if name in s.entries then Some(name) else None
  }

  /** The stored secret has another type, which cannot be changed: applying the entry does nothing. */
  predicate Conflicts(s: State, d: ManifestSecret) {
    d.name in s.entries && s.entries[d.name].typ != OrKv(d.typ)
  }

  /** The entry works on its own secret, or on none. */
  predicate Addresses(s: State, d: ManifestSecret) {
    RefersToItself(s, d.name) || Conflicts(s, d)
  }

  /** What executing the next action does to the server, the rest of the plan and the goal. */
  ghost predicate Progress(m: Manifest, ms: Manifest, s: State, prune: bool, syntax: Syntax, done: seq<Action>,
      a: Action, rest: seq<Action>) {
    match Step(m, s, a, syntax)
    case Err(e) => e == Refused && RefusedBind(m, a, syntax)
    case Ok(t) =>
      && CleanState(t) && OnlyAt(s, t, a.secret)
      && OwnPlan(ms, t, prune) == done + LeftoverIn(m, a) + rest
      && exists d :: d in ms && d.name == a.secret
           && Final(d, Lookup(t, a.secret), prune) == Final(d, Lookup(s, a.secret), prune)
  }

  lemma {:induction false} PlanElsewhere(ms: Manifest, s: State, t: State, prune: bool, name: string)
    requires OnlyAt(s, t, name) && forall d :: d in ms ==> d.name != name
    ensures OwnPlan(ms, t, prune) == OwnPlan(ms, s, prune)
  {
    hide PlanOne;
    if ms != [] {
      assert ms[0] in ms;
      PlanElsewhere(ms[1..], s, t, prune, name);
    }
  }

  lemma HeadProgress(m: Manifest, ms: Manifest, s: State, prune: bool, syntax: Syntax, done: seq<Action>, a: Action,
      rest: seq<Action>)
    requires SoundManifest(m) && CleanState(s) && ms != [] && ms[0] in m && Addresses(s, ms[0])
    requires forall d :: d in ms[1..] ==> d.name != ms[0].name
    requires PlanOne(ms[0], Lookup(s, ms[0].name), prune) == done + [a] + rest && Spent(m, done)
    ensures Progress(m, ms, s, prune, syntax, done, a, rest + OwnPlan(ms[1..], s, prune))
  {
    hide PlanOne, Sound, Final, StepEntry, Leftover, OwnPlan, PatternsOk, Conflicts;
    var d, e := ms[0], Lookup(s, ms[0].name);
    if Conflicts(s, d) {
      ConflictProgress(m, ms, s, prune, syntax, done, a, rest);
      return;
    }
    NamesInPlan(d, e, prune);
    ByNameExact(m, d);
    assert a.secret == d.name by {
      assert (done + [a] + rest)[|done|] == a;
    }
    assert AllLeftover(d, done) by {
      forall x | x in done
        ensures Leftover(d, x) == [x]
      {
        assert x in done + [a] + rest;
      }
    }
    OneAdvances(d, e, prune, syntax, done, a, rest);
    SoundName(d);
    HeadStep(m, ms, s, prune, syntax, done, a, rest);
  }

  lemma EmptyUpdateIsNoOp(m: Manifest, s: State, a: Action, syntax: Syntax)
    requires a.UpdateSecret? && a.fields == []
    ensures Step(m, s, a, syntax) == Ok(s)
  {
    hide ByName, Trim, ParseInt;
    assert forall n :: n in s.entries ==> s.entries[n := s.entries[n]] == s.entries;
  }

  lemma ConflictProgress(m: Manifest, ms: Manifest, s: State, prune: bool, syntax: Syntax, done: seq<Action>, a: Action,
      rest: seq<Action>)
    requires CleanState(s) && ms != [] && ms[0] in m && Conflicts(s, ms[0])
    requires PlanOne(ms[0], Lookup(s, ms[0].name), prune) == done + [a] + rest
    ensures Progress(m, ms, s, prune, syntax, done, a, rest + OwnPlan(ms[1..], s, prune))
  {
    hide Step, ByName, CleanState, Final, OwnPlan;
    var d := ms[0];
    var u := UpdateSecret(d.name, []);
    assert PlanOne(d, Lookup(s, d.name), prune) == [u];
    assert |done + [a] + rest| == 1 && (done + [a] + rest)[|done|] == a;
    assert done == [] && rest == [] && a == u;
    EmptyUpdateIsNoOp(m, s, a, syntax);
    OwnPlanStarts(ms, s, prune);
    assert LeftoverIn(m, a) == [a];
    assert done + LeftoverIn(m, a) + (rest + OwnPlan(ms[1..], s, prune)) == [u] + OwnPlan(ms[1..], s, prune);
    assert d in ms;
  }

  lemma OwnPlanStarts(ms: Manifest, s: State, prune: bool)
    requires ms != []
    ensures OwnPlan(ms, s, prune) == PlanOne(ms[0], Lookup(s, ms[0].name), prune) + OwnPlan(ms[1..], s, prune)
  {
  }

  lemma SoundName(d: ManifestSecret)
    requires Sound(d)
    ensures Trim(d.name) == d.name
  {
  }

  /** A step on a secret that its name refers to changes that secret alone. */
  lemma StepAtName(m: Manifest, s: State, a: Action, syntax: Syntax)
    requires CleanState(s)
    requires var d := ByName(m, a.secret); d.name == a.secret && Trim(d.name) == d.name && RefersToItself(s, d.name)
    ensures var d := ByName(m, a.secret);
            match StepEntry(d, Lookup(s, d.name), a, syntax)
            case Err(e) => Step(m, s, a, syntax) == Err(e)
            case Ok(None) => Step(m, s, a, syntax) == Ok(s)
            case Ok(Some(e)) =>
              var r := Step(m, s, a, syntax);
              && r.Ok? && r.value.entries == s.entries[d.name := e]
              && (CleanEntry(Some(e)) ==> CleanState(r.value))
  {
    hide Trim, ByName, CleanEntry, Resolve, PatternsOk, Key, LabelsOf;
  }

  lemma HeadStep(m: Manifest, ms: Manifest, s: State, prune: bool, syntax: Syntax, done: seq<Action>, a: Action,
      rest: seq<Action>)
    requires CleanState(s) && ms != [] && RefersToItself(s, ms[0].name)
    requires a.secret == ms[0].name && ByName(m, a.secret) == ms[0] && Trim(ms[0].name) == ms[0].name
    requires forall d :: d in ms[1..] ==> d.name != ms[0].name
    requires Advances(ms[0], Lookup(s, ms[0].name), prune, syntax, done, a, rest)
    ensures Progress(m, ms, s, prune, syntax, done, a, rest + OwnPlan(ms[1..], s, prune))
  {
    hide PlanOne, Sound, Final, Step, StepEntry, Leftover, PatternsOk, Trim, Key, ByName, CleanEntry, CleanState,
      RefersToItself;
    var d, e := ms[0], Lookup(s, ms[0].name);
    StepAtName(m, s, a, syntax);
    match StepEntry(d, e, a, syntax) {
      case Err(_) =>
      case Ok(_) =>
        var t := Step(m, s, a, syntax).value;
        assert OnlyAt(s, t, d.name);
        PlanElsewhere(ms[1..], s, t, prune, d.name);
        assert PlanOne(d, Lookup(t, d.name), prune) + OwnPlan(ms[1..], s, prune)
            == done + LeftoverIn(m, a) + (rest + OwnPlan(ms[1..], s, prune));
        assert d in ms;
    }
  }

  /** The next action of the plan for `ms`, a part of the manifest `m`. */
  lemma {:induction false} PlanProgress(m: Manifest, ms: Manifest, s: State, prune: bool, syntax: Syntax,
      done: seq<Action>, a: Action, rest: seq<Action>)
    requires SoundManifest(m) && CleanState(s) && DistinctNames(ms)
    requires forall d :: d in ms ==> d in m && Addresses(s, d)
    requires OwnPlan(ms, s, prune) == done + [a] + rest && Spent(m, done)
    ensures Progress(m, ms, s, prune, syntax, done, a, rest)
  {
    hide PlanOne, SoundManifest, CleanState, Final, Step, LeftoverIn, RefusedBind, Addresses;
    var p, q := PlanOne(ms[0], Lookup(s, ms[0].name), prune), OwnPlan(ms[1..], s, prune);
    var all := done + [a] + rest;
    assert forall i :: 0 <= i < |ms[1..]| ==> ms[1..][i] == ms[i + 1];
    if |p| > |done| {
      var rest0 := p[|done| + 1..];
      assert p == all[..|p|] && q == all[|p|..] && rest == all[|done| + 1..];
      assert (p + q)[|done| + 1..] == rest0 + q;
      assert p == done + [a] + rest0 && rest == rest0 + q;
      HeadProgress(m, ms, s, prune, syntax, done, a, rest0);
    } else {
      var done1 := done[|p|..];
      assert p == all[..|p|] && q == all[|p|..];
      assert done == p + done1 && q == done1 + [a] + rest;
      PlanProgress(m, ms[1..], s, prune, syntax, done1, a, rest);
      TailProgress(m, ms, s, prune, syntax, done1, a, rest);
    }
  }

  lemma TailProgress(m: Manifest, ms: Manifest, s: State, prune: bool, syntax: Syntax, done1: seq<Action>, a: Action,
      rest: seq<Action>)
    requires ms != [] && DistinctNames(ms)
    requires Progress(m, ms[1..], s, prune, syntax, done1, a, rest)
    ensures Progress(m, ms, s, prune, syntax, PlanOne(ms[0], Lookup(s, ms[0].name), prune) + done1, a, rest)
  {
    hide PlanOne, CleanState, Final, Step, LeftoverIn, RefusedBind;
    match Step(m, s, a, syntax) {
      case Err(_) =>
      case Ok(t) =>
        var d :| d in ms[1..] && d.name == a.secret
          && Final(d, Lookup(t, a.secret), prune) == Final(d, Lookup(s, a.secret), prune);
        var i :| 0 <= i < |ms[1..]| && ms[1..][i] == d;
        assert ms[i + 1] == d && d in ms && ms[0].name != d.name;
        assert Lookup(t, ms[0].name) == Lookup(s, ms[0].name);
        assert PlanOne(ms[0], Lookup(s, ms[0].name), prune) + (done1 + LeftoverIn(m, a) + rest)
            == PlanOne(ms[0], Lookup(s, ms[0].name), prune) + done1 + LeftoverIn(m, a) + rest;
    }
  }

  // ---------- what the declared names refer to ----------

  function Names(m: Manifest): seq<string> {
    seq(|m|, i requires 0 <= i < |m| => m[i].name)
  }

  /** The ids of all secrets once the missing ones of a list have been created, in its order. */
  function Assigned(ns: seq<string>, present: set<string>, names: map<int, string>, next: int): map<int, string> {
    if ns == [] then names
    else if ns[0] in present then Assigned(ns[1..], present, names, next)
    else Assigned(ns[1..], present, names[next := ns[0]], next + 1)
  }

  function Future(ns: seq<string>, s: State): map<int, string> {
    Assigned(ns, s.entries.Keys, s.names, s.nextId)
  }

  /** The name reads as the id of another secret. */
  predicate ReadsAsOther(names: map<int, string>, name: string) {
    ParseInt(name).Some? && ParseInt(name).value in names && names[ParseInt(name).value] != name
  }

  /**
   * No declared name reads as the id that another secret has, or gets when this manifest is applied,
   * unless its type conflicts and its entry does nothing.
   */
  ghost predicate Unambiguous(m: Manifest, s: State) {
    forall d :: d in m ==> Conflicts(s, d) || !ReadsAsOther(Future(Names(m), s), d.name)
  }

  ghost predicate Ready(m: Manifest, s: State) {
    SoundManifest(m) && CleanState(s) && Unambiguous(m, s)
  }

  lemma {:induction false} AssignedKeeps(ns: seq<string>, present: set<string>, names: map<int, string>, next: int)
    requires forall i :: i in names ==> i < next
    ensures forall i :: i in names ==>
      i in Assigned(ns, present, names, next) && Assigned(ns, present, names, next)[i] == names[i]
  {
    if ns != [] {
      if ns[0] in present {
        AssignedKeeps(ns[1..], present, names, next);
      } else {
        AssignedKeeps(ns[1..], present, names[next := ns[0]], next + 1);
      }
    }
  }

  lemma {:induction false} AssignedElsewhere(ns: seq<string>, present: set<string>, names: map<int, string>, next: int,
      n: string)
    requires n !in ns
    ensures Assigned(ns, present + {n}, names, next) == Assigned(ns, present, names, next)
  {
    if ns != [] {
      assert ns[0] in ns;
      if ns[0] in present {
        AssignedElsewhere(ns[1..], present, names, next, n);
      } else {
        AssignedElsewhere(ns[1..], present, names[next := ns[0]], next + 1, n);
      }
    }
  }

  function FirstMissing(ns: seq<string>, present: set<string>): Option<string> {
    if ns == [] then None
    else if ns[0] in present then FirstMissing(ns[1..], present)
    else Some(ns[0])
  }

  lemma {:induction false} AssignedAfterCreate(ns: seq<string>, present: set<string>, names: map<int, string>,
      next: int, n: string)
    requires Distinct(ns) && FirstMissing(ns, present) == Some(n)
    ensures Assigned(ns, present + {n}, names[next := n], next + 1) == Assigned(ns, present, names, next)
  {
    assert forall i :: 0 <= i < |ns[1..]| ==> ns[1..][i] == ns[i + 1];
    if ns[0] in present {
      AssignedAfterCreate(ns[1..], present, names, next, n);
    } else {
      assert n !in ns[1..];
      AssignedElsewhere(ns[1..], present, names[next := n], next + 1, n);
    }
  }

  lemma CreatesOf(d: ManifestSecret, e: Option<Entry>, prune: bool)
    ensures e.Some? ==> forall a :: a in PlanOne(d, e, prune) ==> !a.CreateSecret?
    ensures e.None? ==> PlanOne(d, e, prune) != [] && PlanOne(d, e, prune)[0] == CreateSecret(d.name)
  {
    hide Missing, Undeclared, Key, RowKey, MetaChanges;
  }

  /** The next secret to be created is the first that is missing. */
  lemma {:induction false} CreateIsFirstMissing(m: Manifest, ms: Manifest, s: State, prune: bool, done: seq<Action>,
      a: Action, rest: seq<Action>)
    requires OwnPlan(ms, s, prune) == done + [a] + rest && Spent(m, done) && a.CreateSecret?
    ensures FirstMissing(Names(ms), s.entries.Keys) == Some(a.secret)
  {
    hide PlanOne;
    var d, e := ms[0], Lookup(s, ms[0].name);
    assert Names(ms)[1..] == Names(ms[1..]);
    var p, q := PlanOne(d, e, prune), OwnPlan(ms[1..], s, prune);
    var all := done + [a] + rest;
    CreatesOf(d, e, prune);
    assert all == p + q;
    if e.None? {
      assert p != [] && all[0] == p[0];
      assert all[0] == CreateSecret(d.name);
      assert forall i :: 0 <= i < |done| ==> all[i] == done[i] && done[i] in done;
    } else {
      assert all[|done|] == a;
      forall i | 0 <= i < |p|
        ensures !all[i].CreateSecret?
      {
        assert all[i] == p[i] && p[i] in p;
      }
      var done1 := done[|p|..];
      assert p == all[..|p|] && q == all[|p|..];
      assert q == done1 + [a] + rest;
      CreateIsFirstMissing(m, ms[1..], s, prune, done1, a, rest);
    }
  }

  lemma ViewPlans(s: State, d: ManifestSecret, prune: bool)
    requires Addresses(s, d)
    ensures PlanOne(d, View(s, d.name), prune) == PlanOne(d, Lookup(s, d.name), prune)
  {
    hide Resolve, MetaChanges, BindingPlan;
    if !Conflicts(s, d) {
      assert View(s, d.name) == Lookup(s, d.name);
    }
  }

  lemma {:induction false} OwnPlanIsPlan(ms: Manifest, s: State, prune: bool)
    requires forall d :: d in ms ==> Addresses(s, d)
    ensures Plan(ms, s, prune) == OwnPlan(ms, s, prune)
  {
    hide PlanOne, Resolve;
    if ms != [] {
      assert ms[0] in ms;
      ViewPlans(s, ms[0], prune);
      OwnPlanIsPlan(ms[1..], s, prune);
    }
  }

  lemma ReadyRefers(m: Manifest, s: State)
    requires Ready(m, s)
    ensures forall d :: d in m ==> Addresses(s, d)
  {
    hide ParseInt, Trim, Assigned, DistinctNames;
    AssignedKeeps(Names(m), s.entries.Keys, s.names, s.nextId);
    forall d | d in m
      ensures Addresses(s, d)
    {
      assert Sound(d);
      SoundName(d);
    }
  }

  lemma ReadyPlan(m: Manifest, s: State, prune: bool)
    requires Ready(m, s)
    ensures Plan(m, s, prune) == OwnPlan(m, s, prune)
  {
    hide Ready, Addresses;
    ReadyRefers(m, s);
    OwnPlanIsPlan(m, s, prune);
  }

  lemma CreateAddsOne(m: Manifest, s: State, a: Action, syntax: Syntax)
    requires a.CreateSecret?
    ensures Step(m, s, a, syntax).Ok? ==>
              var t := Step(m, s, a, syntax).value;
              var n := Trim(ByName(m, a.secret).name);
              t.entries.Keys == s.entries.Keys + {n} && t.names == s.names[s.nextId := n] && t.nextId == s.nextId + 1
  {
    hide Trim, ByName, LabelsOf;
  }

  lemma OtherStepsAddNothing(m: Manifest, s: State, a: Action, syntax: Syntax)
    requires !a.CreateSecret?
    ensures Step(m, s, a, syntax).Ok? ==>
              var t := Step(m, s, a, syntax).value;
              t.entries.Keys == s.entries.Keys && t.names == s.names && t.nextId == s.nextId
  {
    hide StepEntry, Trim, ParseInt, ByName;
  }

  lemma ConflictsStay(m: Manifest, s: State, prune: bool, syntax: Syntax, done: seq<Action>, a: Action,
      rest: seq<Action>, t: State)
    requires DistinctNames(m)
    requires Progress(m, m, s, prune, syntax, done, a, rest) && Step(m, s, a, syntax) == Ok(t)
    ensures forall d :: d in m && Conflicts(s, d) ==> Conflicts(t, d)
  {
    hide Step, OwnPlan, LeftoverIn, CleanState, Missing, Kept, Keys;
    forall d | d in m && Conflicts(s, d)
      ensures Conflicts(t, d)
    {
      if d.name == a.secret {
        ByNameExact(m, d);
        var d' :| d' in m && d'.name == a.secret
          && Final(d', Lookup(t, a.secret), prune) == Final(d', Lookup(s, a.secret), prune);
        ByNameExact(m, d');
      } else {
        assert Lookup(t, d.name) == Lookup(s, d.name);
      }
    }
  }

  /** A step of the plan gives out the ids it was expected to give out. */
  lemma StepKeepsReady(m: Manifest, s: State, prune: bool, syntax: Syntax, done: seq<Action>, a: Action,
      rest: seq<Action>, t: State)
    requires Ready(m, s) && OwnPlan(m, s, prune) == done + [a] + rest && Spent(m, done)
    requires Progress(m, m, s, prune, syntax, done, a, rest) && Step(m, s, a, syntax) == Ok(t)
    ensures Ready(m, t) && Future(Names(m), t) == Future(Names(m), s)
  {
    hide OwnPlan, StepEntry, Assigned, Spent, Leftover, Final, Sound, DistinctNames, ParseInt, CleanEntry, Trim;
    ReadyRefers(m, s);
    var d :| d in m && d.name == a.secret;
    NamesOf(m);
    ByNameExact(m, d);
    SoundName(d);
    if a.CreateSecret? {
      CreateIsFirstMissing(m, m, s, prune, done, a, rest);
      AssignedAfterCreate(Names(m), s.entries.Keys, s.names, s.nextId, d.name);
      CreateAddsOne(m, s, a, syntax);
    } else {
      OtherStepsAddNothing(m, s, a, syntax);
    }
    assert Future(Names(m), t) == Future(Names(m), s);
    ConflictsStay(m, s, prune, syntax, done, a, rest, t);
  }

  // ---------- runs ----------

  lemma {:induction false} ExecuteSnoc(m: Manifest, s: State, acts: seq<Action>, a: Action, syntax: Syntax)
    ensures Execute(m, s, acts + [a], syntax)
         == match Execute(m, s, acts, syntax) case Err(e) => Err(e) case Ok(t) => Step(m, t, a, syntax)
    decreases |acts|
  {
    hide Step;
    if acts == [] {
      assert [] + [a] == [a];
    } else {
      assert (acts + [a])[1..] == acts[1..] + [a];
      match Step(m, s, acts[0], syntax) {
        case Err(_) =>
        case Ok(t) => ExecuteSnoc(m, t, acts[1..], a, syntax);
      }
    }
  }

  predicate Declared(m: Manifest, name: string) {
    exists d :: d in m && d.name == name
  }

  /** What the manifest asks of the secret of that name. */
  function Goal(m: Manifest, s: State, prune: bool, name: string): Option<Entry> {
    if Declared(m, name) then Final(ByName(m, name), Lookup(s, name), prune) else Lookup(s, name)
  }

  lemma GoalStays(m: Manifest, s: State, t: State, prune: bool, d: ManifestSecret)
    requires DistinctNames(m) && d in m && OnlyAt(s, t, d.name)
    requires Final(d, Lookup(t, d.name), prune) == Final(d, Lookup(s, d.name), prune)
    ensures forall n :: Goal(m, t, prune, n) == Goal(m, s, prune, n)
  {
    hide Final;
    ByNameExact(m, d);
    hide ByName;
  }

  /** The server after `k` actions of the plan made from `s`. */
  ghost predicate StoppedAt(m: Manifest, s: State, prune: bool, syntax: Syntax, k: nat, t: State) {
    k <= |Plan(m, s, prune)| && Execute(m, s, Plan(m, s, prune)[..k], syntax) == Ok(t)
  }

  /**
   * Planning again after any number of executed actions yields the rest of the plan, preceded by
   * what those actions could not settle; the goal has not moved.
   */
  lemma {:induction false} PlanAgain(m: Manifest, s: State, prune: bool, syntax: Syntax, k: nat, t: State)
    requires Ready(m, s) && StoppedAt(m, s, prune, syntax, k, t)
    ensures Ready(m, t) && Future(Names(m), t) == Future(Names(m), s)
    ensures Plan(m, t, prune) == Leftovers(m, Plan(m, s, prune)[..k]) + Plan(m, s, prune)[k..]
    ensures Spent(m, Leftovers(m, Plan(m, s, prune)[..k]))
    ensures forall n :: Goal(m, t, prune, n) == Goal(m, s, prune, n)
  {
    hide Ready, Step, Plan, LeftoverIn, Goal, Execute, Future, Names;
    var p := Plan(m, s, prune);
    if k == 0 {
      NoneExecuted(m, s, p, syntax);
    } else {
      var a := p[k - 1];
      assert p[..k] == p[..k - 1] + [a] && p[..k][..|p[..k]| - 1] == p[..k - 1];
      ExecuteSnoc(m, s, p[..k - 1], a, syntax);
      var u := Execute(m, s, p[..k - 1], syntax).value;
      PlanAgain(m, s, prune, syntax, k - 1, u);
      var done := Leftovers(m, p[..k - 1]);
      Regroup(done, p, k - 1);
      NextStep(m, u, prune, syntax, done, a, p[k..], t);
      LeftoverSpent(m, a);
    }
  }

  lemma NoneExecuted(m: Manifest, s: State, p: seq<Action>, syntax: Syntax)
    ensures Execute(m, s, p[..0], syntax) == Ok(s) && Leftovers(m, p[..0]) + p[0..] == p
      && Spent(m, Leftovers(m, p[..0]))
  {
  }

  lemma NextStep(m: Manifest, u: State, prune: bool, syntax: Syntax, done: seq<Action>, a: Action, rest: seq<Action>,
      t: State)
    requires Ready(m, u) && Plan(m, u, prune) == done + [a] + rest && Spent(m, done) && Step(m, u, a, syntax) == Ok(t)
    ensures Ready(m, t) && Plan(m, t, prune) == done + LeftoverIn(m, a) + rest
      && Future(Names(m), t) == Future(Names(m), u)
    ensures forall n :: Goal(m, t, prune, n) == Goal(m, u, prune, n)
  {
    hide Step, Plan, OwnPlan, LeftoverIn, Goal, Final, Addresses, Sound, CleanState, DistinctNames, Unambiguous;
    ReadyPlan(m, u, prune);
    ReadyRefers(m, u);
    PlanProgress(m, m, u, prune, syntax, done, a, rest);
    StepKeepsReady(m, u, prune, syntax, done, a, rest, t);
    ReadyPlan(m, t, prune);
    GoalAfterStep(m, u, prune, syntax, done, a, rest, t);
  }

  lemma NamesOf(m: Manifest)
    requires SoundManifest(m)
    ensures DistinctNames(m)
  {
  }

  lemma GoalAfterStep(m: Manifest, u: State, prune: bool, syntax: Syntax, done: seq<Action>, a: Action,
      rest: seq<Action>, t: State)
    requires DistinctNames(m) && Progress(m, m, u, prune, syntax, done, a, rest) && Step(m, u, a, syntax) == Ok(t)
    ensures forall n :: Goal(m, t, prune, n) == Goal(m, u, prune, n)
  {
    hide Goal, Final, Step, OwnPlan, LeftoverIn, OnlyAt;
    var d :| d in m && d.name == a.secret
      && Final(d, Lookup(t, a.secret), prune) == Final(d, Lookup(u, a.secret), prune);
    GoalStays(m, u, t, prune, d);
  }

  lemma LeftoverSpent(m: Manifest, a: Action)
    ensures Spent(m, LeftoverIn(m, a))
  {
  }

  // ---------- resuming ----------

  lemma {:induction false} UpdatesExist(ms: Manifest, s: State, prune: bool, a: Action)
    requires a in OwnPlan(ms, s, prune) && a.UpdateSecret?
    ensures exists d :: d in ms && d.name == a.secret && a.secret in s.entries && (a.fields != [] ==> !Conflicts(s, d))
  {
    hide Missing, Undeclared, Key, RowKey, Keys, MetaChanges;
    var d := ms[0];
    if a in PlanOne(d, Lookup(s, d.name), prune) {
      assert d in ms;
    } else {
      UpdatesExist(ms[1..], s, prune, a);
      var d' :| d' in ms[1..] && d'.name == a.secret && a.secret in s.entries && (a.fields != [] ==> !Conflicts(s, d'));
      assert d' in ms;
    }
  }

  /** Executing a leftover action changes nothing. */
  lemma LeftoverIsNoOp(m: Manifest, s: State, a: Action, syntax: Syntax)
    requires LeftoverIn(m, a) == [a] && ByName(m, a.secret).name == a.secret
    requires a.UpdateSecret? && a.fields != [] ==> a.secret in s.entries && RefersToItself(s, a.secret)
    ensures Step(m, s, a, syntax) == Ok(s)
  {
    hide ByName, Resolve;
    SpentIsUpdate(m, a);
    if a.fields == [] {
      EmptyUpdateIsNoOp(m, s, a, syntax);
    } else {
      var d, e := ByName(m, a.secret), s.entries[a.secret];
      assert StepEntry(d, Some(e), a, syntax) == Result<Option<Entry>, ExecError>.Ok(Some(e));
      assert s.entries[a.secret := e] == s.entries;
    }
  }

  lemma {:induction false} SkipLeftovers(m: Manifest, s: State, acts: seq<Action>, rest: seq<Action>, syntax: Syntax)
    requires forall a :: a in acts ==> Step(m, s, a, syntax) == Ok(s)
    ensures Execute(m, s, acts + rest, syntax) == Execute(m, s, rest, syntax)
    decreases |acts|
  {
    hide Step;
    if acts == [] {
      assert [] + rest == rest;
    } else {
      assert (acts + rest)[1..] == acts[1..] + rest && (acts + rest)[0] == acts[0];
      SkipLeftovers(m, s, acts[1..], rest, syntax);
    }
  }

  lemma {:induction false} ExecuteParts(m: Manifest, s: State, acts: seq<Action>, rest: seq<Action>, syntax: Syntax)
    requires Execute(m, s, acts, syntax).Ok?
    ensures Execute(m, s, acts + rest, syntax) == Execute(m, Execute(m, s, acts, syntax).value, rest, syntax)
    decreases |acts|
  {
    hide Step;
    if acts == [] {
      assert [] + rest == rest;
    } else {
      assert (acts + rest)[1..] == acts[1..] + rest && (acts + rest)[0] == acts[0];
      ExecuteParts(m, Step(m, s, acts[0], syntax).value, acts[1..], rest, syntax);
    }
  }

  /** Stop after any action, plan again, execute: the outcome is that of never having stopped. */
  lemma ResumeReachesTheSame(m: Manifest, s: State, prune: bool, syntax: Syntax, k: nat, t: State)
    requires Ready(m, s) && StoppedAt(m, s, prune, syntax, k, t)
    ensures Execute(m, t, Plan(m, t, prune), syntax) == Execute(m, s, Plan(m, s, prune), syntax)
  {
    hide Ready, Step, Plan, LeftoverIn, Goal;
    PlanAgain(m, s, prune, syntax, k, t);
    var p := Plan(m, s, prune);
    var left := Leftovers(m, p[..k]);
    LeftoversAreNoOps(m, t, prune, syntax, left, p[k..]);
    SkipLeftovers(m, t, left, p[k..], syntax);
    ExecuteParts(m, s, p[..k], p[k..], syntax);
    assert p[..k] + p[k..] == p;
  }

  lemma LeftoversAreNoOps(m: Manifest, t: State, prune: bool, syntax: Syntax, left: seq<Action>, rest: seq<Action>)
    requires Ready(m, t) && Plan(m, t, prune) == left + rest && Spent(m, left)
    ensures forall a :: a in left ==> Step(m, t, a, syntax) == Ok(t)
  {
    hide CleanState, Sound, Unambiguous, Step, Plan, OwnPlan, LeftoverIn, ByName, RefersToItself, Conflicts;
    ReadyPlan(m, t, prune);
    ReadyRefers(m, t);
    forall a | a in left
      ensures Step(m, t, a, syntax) == Ok(t)
    {
      assert a in left + rest;
      SpentIsUpdate(m, a);
      UpdatesExist(m, t, prune, a);
      var d :| d in m && d.name == a.secret && a.secret in t.entries && (a.fields != [] ==> !Conflicts(t, d));
      ByNameExact(m, d);
      assert Addresses(t, d);
      LeftoverIsNoOp(m, t, a, syntax);
    }
  }

  lemma SpentIsUpdate(m: Manifest, a: Action)
    requires LeftoverIn(m, a) == [a]
    ensures a.UpdateSecret?
  {
  }

  // ---------- where a completed plan leaves the server ----------

  lemma {:induction false} PartOfPlan(ms: Manifest, s: State, prune: bool, d: ManifestSecret)
    requires d in ms
    ensures forall a :: a in PlanOne(d, Lookup(s, d.name), prune) ==> a in OwnPlan(ms, s, prune)
  {
    hide PlanOne;
    if d != ms[0] {
      PartOfPlan(ms[1..], s, prune, d);
    }
  }

  lemma {:induction false} AllKept(rows: seq<Triple>, keys: set<string>)
    requires Undeclared(rows, keys) == []
    ensures Kept(rows, keys) == rows
  {
    if rows != [] {
      AllKept(rows[1..], keys);
    }
  }

  lemma Inhabited<T>(xs: seq<T>)
    ensures xs != [] ==> exists x :: x in xs
  {
    if xs != [] {
      assert xs[0] in xs;
    }
  }

  /** What is missing or undeclared shows in the plan. */
  lemma PlanShows(d: ManifestSecret, e: Option<Entry>, prune: bool)
    ensures e.None? ==> CreateSecret(d.name) in PlanOne(d, e, prune)
    ensures e.Some? && e.value.typ == OrKv(d.typ) ==>
              && (MetaChanges(d, e.value) != []
                ==> UpdateSecret(d.name, MetaChanges(d, e.value)) in PlanOne(d, e, prune))
              && (forall b :: b in Missing(d.bindings, e.value.rows) ==> Bind(d.name, Key(b)) in PlanOne(d, e, prune))
              && (prune ==> forall r :: r in Undeclared(e.value.rows, Keys(d.bindings)) ==>
                Unbind(d.name, RowKey(r)) in PlanOne(d, e, prune))
  {
    hide Missing, Undeclared, Keys, MetaChanges, Key, RowKey;
    if e.Some? && e.value.typ == OrKv(d.typ) {
      var missing, undeclared := Missing(d.bindings, e.value.rows), Undeclared(e.value.rows, Keys(d.bindings));
      forall b | b in missing
        ensures Bind(d.name, Key(b)) in PlanOne(d, e, prune)
      {
        var i :| 0 <= i < |missing| && missing[i] == b;
        assert Binds(d.name, missing)[i] in Binds(d.name, missing);
      }
      forall r | prune && r in undeclared
        ensures Unbind(d.name, RowKey(r)) in PlanOne(d, e, prune)
      {
        var i :| 0 <= i < |undeclared| && undeclared[i] == r;
        assert Unbinds(d.name, undeclared)[i] in Unbinds(d.name, undeclared);
      }
    }
  }

  /** A secret whose plan lists only leftovers is where the manifest wants it. */
  lemma OnlyLeftoversIsFinal(d: ManifestSecret, e: Option<Entry>, prune: bool)
    requires AllLeftover(d, PlanOne(d, e, prune))
    ensures Final(d, e, prune) == e
  {
    hide Missing, Undeclared, Kept, Keys, MetaChanges, Key, RowKey, PlanOne;
    PlanShows(d, e, prune);
    if e.Some? && e.value.typ == OrKv(d.typ) {
      var rows := e.value.rows;
      Inhabited(Missing(d.bindings, rows));
      Inhabited(Undeclared(rows, Keys(d.bindings)));
      if prune {
        AllKept(rows, Keys(d.bindings));
      }
      SettledMetadata(d, e.value);
      assert rows + [] == rows;
    }
  }

  lemma SettledMetadata(d: ManifestSecret, e: Entry)
    requires MetaChanges(d, e) == []
      || Leftover(d, UpdateSecret(d.name, MetaChanges(d, e))) == [UpdateSecret(d.name, MetaChanges(d, e))]
    ensures e.description == d.description && e.rotationDays == d.rotationDays
    ensures d.labels.Some? ==> d.labels.value == e.labels
  {
    var changes := MetaChanges(d, e);
    assert d.description != e.description ==> Description in changes;
    assert d.rotationDays != e.rotationDays ==> RotationDays in changes;
    assert LabelsOf(d) != e.labels ==> Labels in changes;
  }

  /** A plan that runs to its end leaves every secret, declared or not, exactly at its goal. */
  lemma CompletedPlanReachesGoal(m: Manifest, s: State, prune: bool, syntax: Syntax, t: State)
    requires Ready(m, s) && Execute(m, s, Plan(m, s, prune), syntax) == Ok(t)
    ensures forall n :: Lookup(t, n) == Goal(m, s, prune, n)
  {
    hide Ready, Step, Plan, Goal;
    var p := Plan(m, s, prune);
    assert p[..|p|] == p;
    PlanAgain(m, s, prune, syntax, |p|, t);
    assert Plan(m, t, prune) == Leftovers(m, p);
    OnlyLeftoversAtGoal(m, t, prune);
  }

  lemma OnlyLeftoversAtGoal(m: Manifest, t: State, prune: bool)
    requires Ready(m, t) && Spent(m, Plan(m, t, prune))
    ensures forall n :: Lookup(t, n) == Goal(m, t, prune, n)
  {
    hide CleanState, Sound, Unambiguous, Step, Plan, OwnPlan, Leftover, ByName, Final;
    ReadyPlan(m, t, prune);
    forall n
      ensures Lookup(t, n) == Goal(m, t, prune, n)
    {
      if Declared(m, n) {
        var d :| d in m && d.name == n;
        ByNameExact(m, d);
        PartOfPlan(m, t, prune, d);
        NamesInPlan(d, Lookup(t, n), prune);
        assert AllLeftover(d, PlanOne(d, Lookup(t, n), prune)) by {
          assert forall a :: a in PlanOne(d, Lookup(t, n), prune) ==>
            a in OwnPlan(m, t, prune) && LeftoverIn(m, a) == [a];
        }
        OnlyLeftoversIsFinal(d, Lookup(t, n), prune);
      }
    }
  }

  ghost predicate Has(rows: seq<Triple>, r: Triple) {
    r in rows
  }

  lemma {:induction false} KeptFacts(rows: seq<Triple>, keys: set<string>)
    ensures forall r :: r in Kept(rows, keys) <==> r in rows && RowKey(r) in keys
  {
    if rows != [] {
      KeptFacts(rows[1..], keys);
    }
  }

  /**
   * For a declared secret without a type conflict the goal's binding triples are the old ones and the
   * declared ones, or with prune exactly the declared ones, however often the server held a triple.
   */
  lemma GoalBindings(d: ManifestSecret, e: Option<Entry>, prune: bool)
    requires Sound(d) && CleanEntry(e) && (e.Some? ==> e.value.typ == OrKv(d.typ))
    ensures var g := Final(d, e, prune);
            && g.Some?
            && forall r :: r in g.value.rows <==>
                 r in d.bindings || (!prune && e.Some? && Has(e.value.rows, r))
  {
    hide Missing, Kept, Key, RowKey, Clean, Starred, DistinctKeys;
    if e.Some? {
      var rows, keys := e.value.rows, Keys(d.bindings);
      MissingFacts(d.bindings, rows);
      KeptFacts(rows, keys);
      forall b | b in d.bindings
        ensures Starred(b) == b && RowKey(b) in keys
      {
        CanonicalizedIsClean(b);
        CleanKey(b);
      }
      forall r | r in rows && RowKey(r) in keys
        ensures r in d.bindings
      {
        var b :| b in d.bindings && Key(b) == RowKey(r);
        CleanKey(r);
        KeyInjective(b, r);
      }
    }
  }

  // ---------- when nothing is left to do ----------

  /** The types agree, and labels the manifest leaves out are not set on the server. */
  predicate Settles(d: ManifestSecret, e: Option<Entry>) {
    e.Some? ==> e.value.typ == OrKv(d.typ) && (d.labels.None? ==> e.value.labels == map[])
  }

  lemma LabelsChange(d: ManifestSecret, e: Entry)
    ensures Labels in MetaChanges(d, e) <==> LabelsOf(d) != e.labels
  {
  }

  lemma UpdatesOf(d: ManifestSecret, e: Entry, prune: bool)
    ensures e.typ != OrKv(d.typ) ==> PlanOne(d, Some(e), prune) == [UpdateSecret(d.name, [])]
    ensures e.typ == OrKv(d.typ) ==>
              forall a :: a in PlanOne(d, Some(e), prune) && a.UpdateSecret? ==> a.fields == MetaChanges(d, e) != []
  {
    hide Missing, Undeclared, Key, RowKey, Keys, MetaChanges;
  }

  lemma SettlesIff(d: ManifestSecret, e: Option<Entry>, prune: bool)
    ensures (forall a :: a in PlanOne(d, e, prune) ==> Leftover(d, a) == []) <==> Settles(d, e)
  {
    hide Missing, Undeclared, Key, RowKey, Keys, MetaChanges;
    if e.Some? {
      PlanShows(d, e, prune);
      LabelsChange(d, e.value);
      UpdatesOf(d, e.value, prune);
      SettlesPresent(d, e.value, prune);
    }
  }

  lemma SettlesPresent(d: ManifestSecret, e: Entry, prune: bool)
    requires Labels in MetaChanges(d, e) <==> LabelsOf(d) != e.labels
    requires MetaChanges(d, e) != [] && e.typ == OrKv(d.typ)
      ==> UpdateSecret(d.name, MetaChanges(d, e)) in PlanOne(d, Some(e), prune)
    requires e.typ != OrKv(d.typ) ==> PlanOne(d, Some(e), prune) == [UpdateSecret(d.name, [])]
    requires e.typ == OrKv(d.typ) ==>
               forall a :: a in PlanOne(d, Some(e), prune) && a.UpdateSecret? ==> a.fields == MetaChanges(d, e) != []
    ensures (forall a :: a in PlanOne(d, Some(e), prune) ==> Leftover(d, a) == []) <==> Settles(d, Some(e))
  {
    hide PlanOne, MetaChanges, OrKv;
    if e.typ != OrKv(d.typ) {
      assert UpdateSecret(d.name, []) in PlanOne(d, Some(e), prune);
    }
  }

  lemma {:induction false} OwnerOf(ms: Manifest, s: State, prune: bool, a: Action) returns (d: ManifestSecret)
    requires a in OwnPlan(ms, s, prune)
    ensures d in ms && d.name == a.secret && a in PlanOne(d, Lookup(s, d.name), prune)
  {
    hide PlanOne;
    d := ms[0];
    if a in PlanOne(d, Lookup(s, d.name), prune) {
      NamesInPlan(d, Lookup(s, d.name), prune);
    } else {
      d := OwnerOf(ms[1..], s, prune, a);
    }
  }

  lemma {:induction false} NoLeftovers(m: Manifest, acts: seq<Action>)
    ensures Leftovers(m, acts) == [] <==> forall a :: a in acts ==> LeftoverIn(m, a) == []
  {
    hide LeftoverIn;
    if acts != [] {
      NoLeftovers(m, acts[..|acts| - 1]);
      assert acts == acts[..|acts| - 1] + [acts[|acts| - 1]];
    }
  }

  lemma PlanSettlesIff(m: Manifest, s: State, prune: bool)
    requires DistinctNames(m)
    ensures (forall a :: a in OwnPlan(m, s, prune) ==> LeftoverIn(m, a) == [])
       <==> forall d :: d in m ==> Settles(d, Lookup(s, d.name))
  {
    hide Leftover, PlanOne, Settles, OwnPlan, ByName;
    forall d | d in m
      ensures Settles(d, Lookup(s, d.name))
        <==> forall a :: a in PlanOne(d, Lookup(s, d.name), prune) ==> LeftoverIn(m, a) == []
      ensures forall a :: a in PlanOne(d, Lookup(s, d.name), prune) ==> a in OwnPlan(m, s, prune)
    {
      SettlesIff(d, Lookup(s, d.name), prune);
      NamesInPlan(d, Lookup(s, d.name), prune);
      ByNameExact(m, d);
      PartOfPlan(m, s, prune, d);
    }
    if forall d :: d in m ==> Settles(d, Lookup(s, d.name)) {
      forall a | a in OwnPlan(m, s, prune)
        ensures LeftoverIn(m, a) == []
      {
        var d := OwnerOf(m, s, prune, a);
      }
    }
  }

  /**
   * Planning after a completed plan lists only type conflicts and labels that a manifest without labels
   * cannot clear; it lists nothing exactly when every declared secret settles.
   */
  lemma ConvergesIff(m: Manifest, s: State, prune: bool, syntax: Syntax, t: State)
    requires Ready(m, s) && Execute(m, s, Plan(m, s, prune), syntax) == Ok(t)
    ensures Plan(m, t, prune) == [] <==> forall d :: d in m ==> Settles(d, Lookup(s, d.name))
    ensures forall a :: a in Plan(m, t, prune) ==>
              a.UpdateSecret? && (a.fields == [] || (a.fields == [Labels] && ByName(m, a.secret).labels.None?))
  {
    hide CleanState, Sound, Unambiguous, Step, Plan, OwnPlan, ByName, Settles;
    var p := Plan(m, s, prune);
    assert p[..|p|] == p;
    PlanAgain(m, s, prune, syntax, |p|, t);
    assert Plan(m, t, prune) == Leftovers(m, p);
    NoLeftovers(m, p);
    ReadyPlan(m, s, prune);
    PlanSettlesIff(m, s, prune);
  }

  /** A server with one secret. */
  function Single(name: string, id: int, e: Entry): State {
    State(map[name := e], map[id := name], id + 1)
  }

  /** A secret with labels that its manifest entry leaves out: every run patches it, none changes it. */
  lemma OmittedLabelsNeverConverge(name: string, k: string, v: string, syntax: Syntax)
    requires name != "" && Trimmed(name)
    ensures var m := [ManifestSecret(name, "kv", "", None, 0, [])];
            var s := Single(name, 1, Entry("kv", "", map[k := v], 0, []));
            && Ready(m, s)
            && Plan(m, s, false) == [UpdateSecret(name, [Labels])]
            && Execute(m, s, Plan(m, s, false), syntax) == Ok(s)
  {
    var d := ManifestSecret(name, "kv", "", None, 0, []);
    var e := Entry("kv", "", map[k := v], 0, []);
    SingleIsReady(d, 1, e);
    hide Sound, Trim, Trimmed, ParseInt, Unambiguous, CleanState;
    var m, s := [d], Single(name, 1, e);
    assert k in e.labels && e.labels != map[];
    assert MetaChanges(d, e) == [Labels];
    assert PlanOne(d, Some(e), false) == [UpdateSecret(name, [Labels])];
    assert Plan(m[1..], s, false) == [];
    assert ByName(m, name) == d;
    LeftoverIsNoOp(m, s, UpdateSecret(name, [Labels]), syntax);
    assert Plan(m, s, false)[1..] == [];
  }

  lemma SingleIsReady(d: ManifestSecret, id: int, e: Entry)
    requires Sound(d) && CleanEntry(Some(e))
    ensures Ready([d], Single(d.name, id, e)) && RefersToItself(Single(d.name, id, e), d.name)
  {
    hide Sound, Trim, Trimmed, ParseInt;
    SoundName(d);
    var s := Single(d.name, id, e);
    assert Names([d]) == [d.name] && [d.name][1..] == [];
    assert Assigned([], s.entries.Keys, s.names, s.nextId) == s.names;
  }

  // ---------- what can stop a plan ----------

  lemma {:induction false} ByNameCases(m: Manifest, name: string)
    ensures ByName(m, name) == ZERO || ByName(m, name) in m
  {
    if m != [] {
      ByNameCases(m[..|m| - 1], name);
    }
  }

  lemma RefusedStepFails(m: Manifest, s: State, a: Action, syntax: Syntax)
    requires SoundManifest(m) && RefusedBind(m, a, syntax)
    ensures Step(m, s, a, syntax).Err?
  {
    hide ByName, Clean, DistinctKeys, Key, PatternsOk, Canonicalized, Trim;
    ByNameCases(m, a.secret);
    var d := ByName(m, a.secret);
    var b :| b in d.bindings && Key(b) == a.key && !PatternsOk(b, syntax);
    assert Sound(d);
    FindExact(d.bindings, b);
    CanonicalizedIsClean(b);
  }

  lemma StepSucceedsIff(m: Manifest, u: State, prune: bool, syntax: Syntax, done: seq<Action>, a: Action,
      rest: seq<Action>)
    requires Ready(m, u) && Plan(m, u, prune) == done + [a] + rest && Spent(m, done)
    ensures var r := Step(m, u, a, syntax);
            (r.Ok? <==> !RefusedBind(m, a, syntax)) && (r.Err? ==> r.error == Refused)
  {
    hide Sound, CleanState, DistinctNames, Unambiguous, Step, Plan, OwnPlan, LeftoverIn, RefusedBind, Final, OnlyAt,
      Addresses;
    ReadyPlan(m, u, prune);
    ReadyRefers(m, u);
    PlanProgress(m, m, u, prune, syntax, done, a, rest);
    if RefusedBind(m, a, syntax) {
      RefusedStepFails(m, u, a, syntax);
    }
  }

  lemma Regroup(done: seq<Action>, p: seq<Action>, k: nat)
    requires k < |p|
    ensures done + p[k..] == done + [p[k]] + p[k + 1..]
  {
  }

  /** The `k`th action succeeds where execution reaches it, unless the server refuses its patterns. */
  lemma NextStepSucceedsIff(m: Manifest, s: State, prune: bool, syntax: Syntax, k: nat, u: State)
    requires Ready(m, s)
    requires StoppedAt(m, s, prune, syntax, k, u) && k < |Plan(m, s, prune)|
    ensures var r := Step(m, u, Plan(m, s, prune)[k], syntax);
            && (r.Ok? <==> !RefusedBind(m, Plan(m, s, prune)[k], syntax))
            && (r.Err? ==> r.error == Refused)
  {
    hide Ready, Step, Plan, Spent, Leftovers, RefusedBind, Execute, Goal;
    PlanAgain(m, s, prune, syntax, k, u);
    Regroup(Leftovers(m, Plan(m, s, prune)[..k]), Plan(m, s, prune), k);
    StepSucceedsIff(m, u, prune, syntax, Leftovers(m, Plan(m, s, prune)[..k]), Plan(m, s, prune)[k],
      Plan(m, s, prune)[k + 1..]);
  }

  lemma {:induction false} RunsUntilRefused(m: Manifest, s: State, prune: bool, syntax: Syntax, k: nat)
    requires Ready(m, s) && k <= |Plan(m, s, prune)|
    ensures var r := Execute(m, s, Plan(m, s, prune)[..k], syntax);
            && (r.Ok? <==> forall i :: 0 <= i < k ==> !RefusedBind(m, Plan(m, s, prune)[i], syntax))
            && (r.Err? ==> r.error == Refused)
  {
    hide Ready, Step, Plan, RefusedBind;
    if k > 0 {
      var p := Plan(m, s, prune);
      assert p[..k] == p[..k - 1] + [p[k - 1]];
      ExecuteSnoc(m, s, p[..k - 1], p[k - 1], syntax);
      RunsUntilRefused(m, s, prune, syntax, k - 1);
      var before := Execute(m, s, p[..k - 1], syntax);
      if before.Ok? {
        NextStepSucceedsIff(m, s, prune, syntax, k - 1, before.value);
      }
    }
  }

  /**
   * A plan made from the state it is executed on can only be stopped by a pattern the server refuses:
   * creating, patching, unbinding and finding the declared binding never fail.
   */
  lemma OnlyRefusedPatternsStop(m: Manifest, s: State, prune: bool, syntax: Syntax)
    requires Ready(m, s)
    ensures var r := Execute(m, s, Plan(m, s, prune), syntax);
            && (r.Ok? <==> forall i :: 0 <= i < |Plan(m, s, prune)| ==> !RefusedBind(m, Plan(m, s, prune)[i], syntax))
            && (r.Err? ==> r.error == Refused)
  {
    hide Ready, Step, Plan, RefusedBind;
    var p := Plan(m, s, prune);
    assert p[..|p|] == p;
    RunsUntilRefused(m, s, prune, syntax, |p|);
  }
}
