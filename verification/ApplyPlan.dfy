/**
 * Planning and executing `gocactl apply`: the plan computed from a manifest and the server's state,
 * what each action does on the server, and what stopping and planning again leads to.
 */
module ApplyPlan {
  import opened Common
  import opened Text
  import opened Numerals
  import opened ApplyManifest

  datatype Field = Description | Labels | RotationDays

  /** An update without fields is how the planner reports a type conflict. */
  datatype Action =
    | CreateSecret(secret: string)
    | UpdateSecret(secret: string, fields: seq<Field>)
    | Bind(secret: string, key: string)
    | Unbind(secret: string, key: string)

  /** One secret on the server: its metadata, and its binding rows in id order. */
  datatype Entry = Entry(typ: string, description: string, labels: map<string, string>, rotationDays: int,
      rows: seq<Triple>)

  /** The secrets by name, the name behind each id, and the next id. */
  datatype State = State(entries: map<string, Entry>, names: map<int, string>, nextId: int)

  function Lookup(s: State, name: string): Option<Entry> {
    if name in s.entries then Some(s.entries[name]) else None
  }

  /** The server's reading of a path element: an id if some secret has it, otherwise a name. */
  function Resolve(s: State, ref: string): Option<string> {
    var id := ParseInt(ref);
    if id.Some? && id.value in s.names && s.names[id.value] in s.entries then Some(s.names[id.value])
    else if Trim(ref) in s.entries then Some(Trim(ref))
    else None
  }

  /** An id that a stored secret has, in whatever way the numeral is written; otherwise the trimmed name. */
  lemma ResolveExact(s: State, ref: string)
    ensures var id := ParseInt(ref);
            var byId := id.Some? && id.value in s.names && s.names[id.value] in s.entries;
            && (byId ==> Resolve(s, ref) == Some(s.names[id.value]))
            && (!byId && Trim(ref) in s.entries ==> Resolve(s, ref) == Some(Trim(ref)))
            && (!byId && Trim(ref) !in s.entries ==> Resolve(s, ref) == None)
            && (Resolve(s, ref).Some? ==> Resolve(s, ref).value in s.entries)
  {
    hide ParseInt, Trim;
  }

  /** A reference as the API answers it. */
  function Referenced(s: State, ref: string): Option<Entry> {
    match Resolve(s, ref)
    case None => None
    case Some(n) => Lookup(s, n)
  }

  /** What fetchServerState gathers for a declared name: metadata from the list, bindings by reference. */
  function View(s: State, name: string): Option<Entry> {
    if name !in s.entries then None
    else
      match Referenced(s, name)
      case None => Some(s.entries[name].(rows := []))
      case Some(e) => Some(s.entries[name].(rows := e.rows))
  }

  // ---------- planning ----------

  function LabelsOf(d: ManifestSecret): map<string, string> {
    if d.labels.Some? then d.labels.value else map[]
  }

  function MetaChanges(d: ManifestSecret, e: Entry): seq<Field> {
    (if d.description != e.description then [Description] else [])
    + (if LabelsOf(d) != e.labels then [Labels] else [])
    + (if d.rotationDays != e.rotationDays then [RotationDays] else [])
  }

  function Missing(bs: seq<Triple>, rows: seq<Triple>): seq<Triple> {
    if bs == [] then []
    else (if Starred(bs[0]) in rows then [] else [bs[0]]) + Missing(bs[1..], rows)
  }

  function Binds(name: string, bs: seq<Triple>): seq<Action> {
    seq(|bs|, i requires 0 <= i < |bs| => Bind(name, Key(bs[i])))
  }

  function Keys(bs: seq<Triple>): set<string> {
    set b | b in bs :: Key(b)
  }

  function RowKey(r: Triple): string {
    r.ns + [NUL] + r.sa + [NUL] + r.auth
  }

  function Undeclared(rows: seq<Triple>, keys: set<string>): seq<Triple> {
    if rows == [] then []
    else (if RowKey(rows[0]) in keys then [] else [rows[0]]) + Undeclared(rows[1..], keys)
  }

  function Unbinds(name: string, rows: seq<Triple>): seq<Action> {
    seq(|rows|, i requires 0 <= i < |rows| => Unbind(name, RowKey(rows[i])))
  }

  function UpdateFor(d: ManifestSecret, e: Entry): seq<Action> {
    if MetaChanges(d, e) == [] then [] else [UpdateSecret(d.name, MetaChanges(d, e))]
  }

  function BindingPlan(d: ManifestSecret, rows: seq<Triple>, prune: bool): seq<Action> {
    Binds(d.name, Missing(d.bindings, rows))
    + (if prune then Unbinds(d.name, Undeclared(rows, Keys(d.bindings))) else [])
  }

  function PlanOne(d: ManifestSecret, e: Option<Entry>, prune: bool): seq<Action> {
    match e
    case None => [CreateSecret(d.name)] + Binds(d.name, d.bindings)
    case Some(srv) =>
      if srv.typ != OrKv(d.typ) then [UpdateSecret(d.name, [])]
      else UpdateFor(d, srv) + BindingPlan(d, srv.rows, prune)
  }

  function Plan(m: Manifest, s: State, prune: bool): seq<Action> {
    if m == [] then [] else PlanOne(m[0], View(s, m[0].name), prune) + Plan(m[1..], s, prune)
  }

  // ---------- executing ----------

  datatype ExecError = Exists | NotFound | Refused | NoDeclaredBinding

  /** path.Match accepts the pattern. */
  type Syntax = string -> bool

  function FindByKey(bs: seq<Triple>, key: string): Option<Triple> {
    if bs == [] then None
    else if Key(bs[0]) == key then Some(bs[0])
    else FindByKey(bs[1..], key)
  }

  function WithoutFirst(rows: seq<Triple>, key: string): seq<Triple> {
    if rows == [] then []
    else if RowKey(rows[0]) == key then rows[1..]
    else [rows[0]] + WithoutFirst(rows[1..], key)
  }

  /** Only the first row with the key goes; the others stay in order. */
  lemma {:induction false} WithoutFirstExact(rows: seq<Triple>, key: string, i: nat)
    requires i < |rows| && RowKey(rows[i]) == key && forall j :: 0 <= j < i ==> RowKey(rows[j]) != key
    ensures WithoutFirst(rows, key) == rows[..i] + rows[i + 1..]
  {
    hide RowKey;
    if i > 0 {
      assert forall j :: 0 <= j < |rows[1..]| ==> rows[1..][j] == rows[j + 1];
      WithoutFirstExact(rows[1..], key, i - 1);
      assert rows[..i] == [rows[0]] + rows[1..][..i - 1] && rows[1..][i..] == rows[i + 1..];
    }
  }

  lemma {:induction false} WithoutNone(rows: seq<Triple>, key: string)
    requires forall r :: r in rows ==> RowKey(r) != key
    ensures WithoutFirst(rows, key) == rows
  {
    hide RowKey;
    if rows != [] {
      assert rows[0] in rows;
      WithoutNone(rows[1..], key);
    }
  }

  /** The first declared binding with the key, if there is one. */
  lemma {:induction false} FindByKeyExact(bs: seq<Triple>, key: string)
    ensures FindByKey(bs, key) == None <==> forall b :: b in bs ==> Key(b) != key
    ensures FindByKey(bs, key).Some? ==>
              exists i :: 0 <= i < |bs| && bs[i] == FindByKey(bs, key).value && Key(bs[i]) == key
                && forall j :: 0 <= j < i ==> Key(bs[j]) != key
  {
    hide Key;
    if bs != [] && Key(bs[0]) != key {
      FindByKeyExact(bs[1..], key);
      if FindByKey(bs, key).Some? {
        var i :| 0 <= i < |bs[1..]| && bs[1..][i] == FindByKey(bs[1..], key).value && Key(bs[1..][i]) == key
          && forall j :: 0 <= j < i ==> Key(bs[1..][j]) != key;
        assert forall j :: 0 < j < i + 1 ==> bs[j] == bs[1..][j - 1];
        assert bs[i + 1] == FindByKey(bs, key).value;
      }
    }
  }

  /** The PATCH handler: a field that is absent or null keeps its value. */
  function Patched(d: ManifestSecret, e: Entry, fields: seq<Field>): Entry {
    Entry(e.typ,
          if Description in fields then d.description else e.description,
          if Labels in fields && d.labels.Some? then d.labels.value else e.labels,
          if RotationDays in fields then d.rotationDays else e.rotationDays,
          e.rows)
  }

  predicate PatternsOk(b: Triple, syntax: Syntax) {
    syntax(b.ns) && syntax(b.sa) && syntax(b.auth)
  }

  /** One action, seen from the secret it addresses. */
  function StepEntry(d: ManifestSecret, e: Option<Entry>, a: Action, syntax: Syntax): Result<Option<Entry>, ExecError> {
    match a
    case CreateSecret(_) =>
      if Trim(d.name) == "" || OrKv(d.typ) !in {"kv", "file"} then Err(Refused)
      else if e.Some? then Err(Exists)
      else Ok(Some(Entry(OrKv(d.typ), d.description, LabelsOf(d), d.rotationDays, [])))
    case UpdateSecret(_, fields) =>
      if fields == [] then Ok(e)
      else if e.None? then Err(NotFound)
      else Ok(Some(Patched(d, e.value, fields)))
    case Bind(_, key) =>
      (match FindByKey(d.bindings, key)
       case None => Err(NoDeclaredBinding)
       case Some(b) =>
         if e.None? then Err(NotFound)
         else if !PatternsOk(Canonicalized(b), syntax) then Err(Refused)
         else Ok(Some(e.value.(rows := e.value.rows + [Canonicalized(b)]))))
    case Unbind(_, key) =>
      if e.None? then Err(NotFound) else Ok(Some(e.value.(rows := WithoutFirst(e.value.rows, key))))
  }

  const ZERO := ManifestSecret("", "", "", None, 0, [])

  /** The executor's byName map: the last entry of that name, the zero value if there is none. */
  function ByName(m: Manifest, name: string): ManifestSecret {
    if m == [] then ZERO
    else if m[|m| - 1].name == name then m[|m| - 1]
    else ByName(m[..|m| - 1], name)
  }

  /** Creating names the secret in the request; the other calls refer to it. */
  function Step(m: Manifest, s: State, a: Action, syntax: Syntax): Result<State, ExecError> {
    var d := ByName(m, a.secret);
    if a.CreateSecret? then
      var n := Trim(d.name);
      match StepEntry(d, Lookup(s, n), a, syntax)
      case Err(e) => Err(e)
      case Ok(None) => Ok(s)
      case Ok(Some(e)) => Ok(State(s.entries[n := e], s.names[s.nextId := n], s.nextId + 1))
    else
      match StepEntry(d, Referenced(s, d.name), a, syntax)
      case Err(e) => Err(e)
      case Ok(None) => Ok(s)
      case Ok(Some(e)) =>
        match Resolve(s, d.name)
        case None => Ok(s)
        case Some(n) => Ok(s.(entries := s.entries[n := e]))
  }

  /** Execution stops at the first error. */
  function Execute(m: Manifest, s: State, acts: seq<Action>, syntax: Syntax): Result<State, ExecError>
    decreases |acts|
  {
    if acts == [] then Ok(s)
    else
      match Step(m, s, acts[0], syntax)
      case Err(e) => Err(e)
      case Ok(t) => Execute(m, t, acts[1..], syntax)
  }

  // ---------- what a validated manifest and a server state look like ----------

  /** A manifest entry after parseManifest, with a name the server does not trim and NUL-free fields. */
  ghost predicate Sound(d: ManifestSecret) {
    && d.name != "" && Trimmed(d.name) && d.typ in {"", "kv", "file"}
    && DistinctKeys(d.bindings) && forall b :: b in d.bindings ==> Clean(b)
  }

  ghost predicate DistinctNames(m: Manifest) {
    forall i, j :: 0 <= i < j < |m| ==> m[i].name != m[j].name
  }

  ghost predicate SoundManifest(m: Manifest) {
    DistinctNames(m) && forall d :: d in m ==> Sound(d)
  }

  ghost predicate CleanEntry(e: Option<Entry>) {
    e.Some? ==> forall r :: r in e.value.rows ==> Clean(r)
  }

  /** Rows are clean, and the ids given out so far belong to stored secrets. */
  ghost predicate CleanState(s: State) {
    && (forall n :: n in s.entries ==> CleanEntry(Some(s.entries[n])))
    && (forall i :: i in s.names ==> i < s.nextId && s.names[i] in s.entries)
  }

  lemma ValidatedIsSound(m: Manifest)
    requires Validated(m)
    requires forall d :: d in m ==> Trimmed(d.name) && forall b :: b in d.bindings ==> Clean(b)
    ensures SoundManifest(m)
  {
    hide Clean, Trim, Trimmed, DistinctKeys;
    forall d | d in m
      ensures Sound(d)
    {
      var i :| 0 <= i < |m| && m[i] == d;
      assert FaultAt(m, i) == None;
    }
    forall i, j | 0 <= i < j < |m|
      ensures m[i].name != m[j].name
    {
      assert FaultAt(m, j) == None;
      assert !NameTaken(m, j);
    }
  }

  // ---------- rows and declared bindings ----------

  lemma {:induction false} MissingFacts(bs: seq<Triple>, rows: seq<Triple>)
    ensures forall b :: b in Missing(bs, rows) <==> b in bs && Starred(b) !in rows
  {
    if bs != [] {
      MissingFacts(bs[1..], rows);
    }
  }

  lemma {:induction false} UndeclaredFacts(rows: seq<Triple>, keys: set<string>)
    ensures forall r :: r in Undeclared(rows, keys) <==> r in rows && RowKey(r) !in keys
  {
    if rows != [] {
      UndeclaredFacts(rows[1..], keys);
    }
  }

  lemma {:induction false} FindExact(bs: seq<Triple>, b: Triple)
    requires DistinctKeys(bs) && b in bs
    ensures FindByKey(bs, Key(b)) == Some(b)
  {
    if bs[0] != b {
      var i :| 0 <= i < |bs| && bs[i] == b;
      assert b == bs[1..][i - 1];
      FindExact(bs[1..], b);
    }
  }

  lemma {:induction false} RowElsewhere(bs: seq<Triple>, rows: seq<Triple>, b: Triple)
    requires b !in bs && Clean(b) && forall x :: x in bs ==> Clean(x)
    ensures Missing(bs, rows + [b]) == Missing(bs, rows)
  {
    hide Clean, Starred, Canonicalized;
    if bs != [] {
      assert Clean(bs[0]);
      CanonicalizedIsClean(bs[0]);
      RowElsewhere(bs[1..], rows, b);
    }
  }

  /** Storing the first missing binding leaves the others missing, in order. */
  lemma {:induction false} BindNext(bs: seq<Triple>, rows: seq<Triple>)
    requires DistinctKeys(bs) && forall x :: x in bs ==> Clean(x)
    requires Missing(bs, rows) != []
    ensures Missing(bs, rows)[0] in bs
    ensures Missing(bs, rows + [Missing(bs, rows)[0]]) == Missing(bs, rows)[1..]
  {
    hide Clean, Starred, Canonicalized, Key;
    assert Clean(bs[0]);
    CanonicalizedIsClean(bs[0]);
    if bs[0] in rows {
      BindNext(bs[1..], rows);
    } else {
      var b := bs[0];
      forall i | 0 <= i < |bs[1..]|
        ensures bs[1..][i] != b
      {
        assert Key(bs[0]) != Key(bs[i + 1]);
      }
      RowElsewhere(bs[1..], rows, b);
    }
  }

  lemma {:induction false} UndeclaredAppend(rows: seq<Triple>, r: Triple, keys: set<string>)
    requires RowKey(r) in keys
    ensures Undeclared(rows + [r], keys) == Undeclared(rows, keys)
    ensures Kept(rows + [r], keys) == Kept(rows, keys) + [r]
  {
    if rows != [] {
      assert (rows + [r])[1..] == rows[1..] + [r];
      UndeclaredAppend(rows[1..], r, keys);
    }
  }

  function Kept(rows: seq<Triple>, keys: set<string>): seq<Triple> {
    if rows == [] then []
    else (if RowKey(rows[0]) in keys then [rows[0]] else []) + Kept(rows[1..], keys)
  }

  /** Deleting the first row with the key of the first undeclared row deletes that very row. */
  lemma {:induction false} UnbindNext(rows: seq<Triple>, keys: set<string>)
    requires Undeclared(rows, keys) != []
    ensures var key := RowKey(Undeclared(rows, keys)[0]);
            && key !in keys
            && Undeclared(WithoutFirst(rows, key), keys) == Undeclared(rows, keys)[1..]
            && Kept(WithoutFirst(rows, key), keys) == Kept(rows, keys)
            && (forall r :: r in WithoutFirst(rows, key) ==> r in rows)
            && (forall r :: r in rows && RowKey(r) in keys ==> r in WithoutFirst(rows, key))
  {
    if RowKey(rows[0]) in keys {
      UnbindNext(rows[1..], keys);
    }
  }

  // ---------- one secret, one action ----------

  /** What a re-plan still lists after the action: conflicts, and labels the server will not clear. */
  function Leftover(d: ManifestSecret, a: Action): seq<Action> {
    if !a.UpdateSecret? then []
    else if a.fields == [] then [a]
    else if Labels in a.fields && d.labels.None? then [UpdateSecret(a.secret, [Labels])]
    else []
  }

  /** The entry that a completed plan leaves. */
  function Final(d: ManifestSecret, e: Option<Entry>, prune: bool): Option<Entry> {
    match e
    case None => Some(Entry(OrKv(d.typ), d.description, LabelsOf(d), d.rotationDays, d.bindings))
    case Some(srv) =>
      if srv.typ != OrKv(d.typ) then e
      else
        Some(Entry(srv.typ, d.description, if d.labels.Some? then d.labels.value else srv.labels, d.rotationDays,
                   (if prune then Kept(srv.rows, Keys(d.bindings)) else srv.rows) + Missing(d.bindings, srv.rows)))
  }

  lemma {:induction false} NothingStored(bs: seq<Triple>)
    ensures Missing(bs, []) == bs
  {
    if bs != [] {
      NothingStored(bs[1..]);
    }
  }

  /** What executing the next action `a` of a plan does, when `done` is all that is left of the earlier ones. */
  ghost predicate Advances(d: ManifestSecret, e: Option<Entry>, prune: bool, syntax: Syntax, done: seq<Action>,
      a: Action, rest: seq<Action>) {
    match StepEntry(d, e, a, syntax)
    case Err(error) => error == Refused && a.Bind? && exists b :: b in d.bindings && Key(b) == a.key
                                                        && !PatternsOk(b, syntax)
    case Ok(e') =>
      && e'.Some? && CleanEntry(e')
      && PlanOne(d, e', prune) == done + Leftover(d, a) + rest
      && Final(d, e', prune) == Final(d, e, prune)
  }

  lemma CreateAdvances(d: ManifestSecret, prune: bool, syntax: Syntax)
    requires Sound(d)
    ensures Advances(d, None, prune, syntax, [], CreateSecret(d.name), Binds(d.name, d.bindings))
  {
    NothingStored(d.bindings);
    var e := Entry(OrKv(d.typ), d.description, LabelsOf(d), d.rotationDays, []);
    assert StepEntry(d, None, CreateSecret(d.name), syntax) == Result<Option<Entry>, ExecError>.Ok(Some(e));
    assert Undeclared([], Keys(d.bindings)) == [] && Kept([], Keys(d.bindings)) + d.bindings == d.bindings;
    assert [] + d.bindings == d.bindings;
  }

  /** The entry with "none declared" spelled out as an empty label map. */
  function Spelled(d: ManifestSecret): ManifestSecret {
    d.(labels := Some(LabelsOf(d)))
  }

  /**
   * A field is listed exactly if sending what the manifest says of it would change the secret, and none
   * is listed exactly if the secret's metadata is what creating it from the manifest would store.
   */
  lemma MetaChangesExact(d: ManifestSecret, e: Entry)
    ensures Distinct(MetaChanges(d, e))
    ensures forall f :: f in MetaChanges(d, e) <==> Patched(Spelled(d), e, [f]) != e
    ensures MetaChanges(d, e) == [] <==> e == Entry(e.typ, d.description, LabelsOf(d), d.rotationDays, e.rows)
  {
    var changes := MetaChanges(d, e);
    assert Description in changes <==> d.description != e.description;
    assert Labels in changes <==> LabelsOf(d) != e.labels;
    assert RotationDays in changes <==> d.rotationDays != e.rotationDays;
    forall f
      ensures f in changes <==> Patched(Spelled(d), e, [f]) != e
    {
      match f
      case Description =>
      case Labels =>
      case RotationDays =>
    }
  }

  lemma PatchSettles(d: ManifestSecret, e: Entry)
    ensures Labels in MetaChanges(d, e) <==> LabelsOf(d) != e.labels
    ensures MetaChanges(d, Patched(d, e, MetaChanges(d, e)))
         == if LabelsOf(d) != e.labels && d.labels.None? then [Labels] else []
    ensures MetaChanges(d, e) != [] ==>
              var e' := Patched(d, e, MetaChanges(d, e));
              && e'.description == d.description && e'.rotationDays == d.rotationDays
              && e'.labels == if d.labels.Some? then d.labels.value else e.labels
  {
    var fields := MetaChanges(d, e);
    assert Description in fields <==> d.description != e.description;
    assert RotationDays in fields <==> d.rotationDays != e.rotationDays;
  }

  lemma PatchKeepsGoal(d: ManifestSecret, e: Entry, prune: bool)
    requires Sound(d) && e.typ == OrKv(d.typ) && MetaChanges(d, e) != []
    ensures var e' := Patched(d, e, MetaChanges(d, e));
            && e'.rows == e.rows && e'.typ == e.typ
            && Final(d, Some(e'), prune) == Final(d, Some(e), prune)
            && UpdateFor(d, e') == Leftover(d, UpdateSecret(d.name, MetaChanges(d, e)))
  {
    hide Sound, MetaChanges, LabelsOf, Missing, Kept, Keys;
    PatchSettles(d, e);
  }

  lemma UpdateAdvances(d: ManifestSecret, e: Entry, prune: bool, syntax: Syntax)
    requires Sound(d) && CleanEntry(Some(e)) && e.typ == OrKv(d.typ) && MetaChanges(d, e) != []
    ensures Advances(d, Some(e), prune, syntax, [], UpdateSecret(d.name, MetaChanges(d, e)),
      BindingPlan(d, e.rows, prune))
  {
    hide Sound, MetaChanges, LabelsOf, BindingPlan, Final, UpdateFor, Leftover, Patched;
    PatchKeepsGoal(d, e, prune);
    var e' := Patched(d, e, MetaChanges(d, e));
    assert PlanOne(d, Some(e'), prune) == UpdateFor(d, e') + BindingPlan(d, e.rows, prune);
  }

  /** Storing the first missing binding shortens the binding plan and leaves the goal where it was. */
  lemma BindOnRows(d: ManifestSecret, rows: seq<Triple>, prune: bool)
    requires Sound(d) && Missing(d.bindings, rows) != []
    ensures var missing := Missing(d.bindings, rows);
            var b := missing[0];
            var keys := Keys(d.bindings);
            && b in d.bindings && Clean(b) && FindByKey(d.bindings, Key(b)) == Some(b) && Canonicalized(b) == b
            && BindingPlan(d, rows, prune) == [Bind(d.name, Key(b))] + BindingPlan(d, rows + [b], prune)
            && Kept(rows + [b], keys) + Missing(d.bindings, rows + [b]) == Kept(rows, keys) + missing
            && (rows + [b]) + Missing(d.bindings, rows + [b]) == rows + missing
  {
    hide Clean, DistinctKeys, Canonicalized, Missing, Undeclared, Kept, Key, RowKey, FindByKey, Starred;
    var missing := Missing(d.bindings, rows);
    var b := missing[0];
    BindNext(d.bindings, rows);
    FindExact(d.bindings, b);
    CanonicalizedIsClean(b);
    CleanKey(b);
    UndeclaredAppend(rows, b, Keys(d.bindings));
  }

  lemma BindKeepsGoal(d: ManifestSecret, e: Entry, prune: bool)
    requires Sound(d) && e.typ == OrKv(d.typ) && Missing(d.bindings, e.rows) != []
    ensures var e' := e.(rows := e.rows + [Missing(d.bindings, e.rows)[0]]);
            && Final(d, Some(e'), prune) == Final(d, Some(e), prune)
            && PlanOne(d, Some(e'), prune) == UpdateFor(d, e) + [] + BindingPlan(d, e.rows, prune)[1..]
  {
    hide Sound, Clean, Canonicalized, MetaChanges, Missing, Kept, Key, Keys, FindByKey, UpdateFor, BindingPlan;
    BindOnRows(d, e.rows, prune);
    RowsAreNotMetadata(d, e, e.rows + [Missing(d.bindings, e.rows)[0]]);
  }

  lemma BindAdvances(d: ManifestSecret, e: Entry, prune: bool, syntax: Syntax)
    requires Sound(d) && CleanEntry(Some(e)) && e.typ == OrKv(d.typ)
    requires Missing(d.bindings, e.rows) != []
    ensures var key := Key(Missing(d.bindings, e.rows)[0]);
            Advances(d, Some(e), prune, syntax, UpdateFor(d, e), Bind(d.name, key), BindingPlan(d, e.rows, prune)[1..])
  {
    hide Sound, Clean, Canonicalized, MetaChanges, Missing, Kept, Key, Keys, FindByKey, UpdateFor, BindingPlan, Final,
      PlanOne, PatternsOk;
    BindOnRows(d, e.rows, prune);
    BindKeepsGoal(d, e, prune);
  }

  lemma RowsAreNotMetadata(d: ManifestSecret, e: Entry, rows: seq<Triple>)
    ensures UpdateFor(d, e.(rows := rows)) == UpdateFor(d, e)
  {
  }

  lemma CleanKey(b: Triple)
    requires Clean(b)
    ensures RowKey(b) == Key(b)
  {
  }

  lemma {:induction false} NoneMissing(bs: seq<Triple>, rows: seq<Triple>)
    requires forall b :: b in bs ==> Starred(b) in rows
    ensures Missing(bs, rows) == []
  {
    if bs != [] {
      NoneMissing(bs[1..], rows);
    }
  }

  lemma UnbindAdvances(d: ManifestSecret, e: Entry, syntax: Syntax)
    requires Sound(d) && CleanEntry(Some(e)) && e.typ == OrKv(d.typ)
    requires Missing(d.bindings, e.rows) == [] && Undeclared(e.rows, Keys(d.bindings)) != []
    ensures var key := RowKey(Undeclared(e.rows, Keys(d.bindings))[0]);
            Advances(d, Some(e), true, syntax, UpdateFor(d, e), Unbind(d.name, key), BindingPlan(d, e.rows, true)[1..])
  {
    hide Clean, DistinctKeys, MetaChanges, Missing, Undeclared, Kept, Key, Starred;
    var keys := Keys(d.bindings);
    var key := RowKey(Undeclared(e.rows, keys)[0]);
    UnbindNext(e.rows, keys);
    var rows := WithoutFirst(e.rows, key);
    MissingFacts(d.bindings, e.rows);
    forall b | b in d.bindings
      ensures Starred(b) in rows
    {
      CanonicalizedIsClean(b);
      CleanKey(b);
      assert b !in Missing(d.bindings, e.rows);
    }
    NoneMissing(d.bindings, rows);
    assert BindingPlan(d, rows, true) == BindingPlan(d, e.rows, true)[1..];
    var e' := e.(rows := rows);
    assert CleanEntry(Some(e'));
    assert Final(d, Some(e'), true) == Final(d, Some(e), true);
    RowsAreNotMetadata(d, e, e'.rows);
    assert PlanOne(d, Some(e'), true) == UpdateFor(d, e) + [] + BindingPlan(d, e.rows, true)[1..];
  }

  /** The earlier actions of a plan have left only these behind. */
  ghost predicate AllLeftover(d: ManifestSecret, acts: seq<Action>) {
    forall a :: a in acts ==> Leftover(d, a) == [a]
  }

  lemma ConflictAdvances(d: ManifestSecret, e: Entry, prune: bool, syntax: Syntax)
    requires CleanEntry(Some(e)) && e.typ != OrKv(d.typ)
    ensures Advances(d, Some(e), prune, syntax, [], UpdateSecret(d.name, []), [])
  {
  }

  lemma SamePrefix<T>(u: seq<T>, b: seq<T>, done: seq<T>, a: T, rest: seq<T>)
    requires u + b == done + [a] + rest && |done| == |u|
    ensures done == u && b == [a] + rest
  {
    assert (u + b)[..|u|] == u && (done + [a] + rest)[..|done|] == done;
    assert (u + b)[|u|..] == b && (done + [a] + rest)[|done|..] == [a] + rest;
  }

  lemma SplitPoint(u: seq<Action>, b: seq<Action>, done: seq<Action>, a: Action, rest: seq<Action>)
    requires u + b == done + [a] + rest && |u| <= 1 && (u == [] || done != [])
    requires (forall x :: x in b ==> !x.UpdateSecret?) && (forall x :: x in done ==> x.UpdateSecret?)
    ensures |done| == |u|
  {
    var all := done + [a] + rest;
    assert all[|u|] == (u + b)[|u|] == b[0] && b[0] in b;
    assert forall i :: 0 <= i < |done| ==> all[i] == done[i] && done[i] in done;
  }

  lemma DoneIsUpdate(d: ManifestSecret, e: Entry, prune: bool, done: seq<Action>, a: Action, rest: seq<Action>)
    requires UpdateFor(d, e) + BindingPlan(d, e.rows, prune) == done + [a] + rest && AllLeftover(d, done)
    requires UpdateFor(d, e) == [] || done != []
    ensures done == UpdateFor(d, e) && BindingPlan(d, e.rows, prune) == [a] + rest
  {
    var u, b := UpdateFor(d, e), BindingPlan(d, e.rows, prune);
    assert forall x :: x in b ==> !x.UpdateSecret?;
    assert |u| <= 1;
    hide UpdateFor, BindingPlan;
    SplitPoint(u, b, done, a, rest);
    SamePrefix(u, b, done, a, rest);
  }

  /** The next action of one secret's plan, whatever it is. */
  lemma OneAdvances(d: ManifestSecret, e: Option<Entry>, prune: bool, syntax: Syntax, done: seq<Action>, a: Action,
      rest: seq<Action>)
    requires Sound(d) && CleanEntry(e)
    requires PlanOne(d, e, prune) == done + [a] + rest && AllLeftover(d, done)
    ensures Advances(d, e, prune, syntax, done, a, rest)
  {
    hide Sound, CleanEntry, MetaChanges, Final, StepEntry, Advances;
    var p := PlanOne(d, e, prune);
    assert p[..|done|] == done && p[|done|] == a && p[|done| + 1..] == rest;
    assert done != [] ==> done[0] in done;
    match e {
      case None =>
        assert done == [];
        CreateAdvances(d, prune, syntax);
      case Some(srv) =>
        if srv.typ != OrKv(d.typ) {
          ConflictAdvances(d, srv, prune, syntax);
        } else if UpdateFor(d, srv) != [] && done == [] {
          UpdateAdvances(d, srv, prune, syntax);
        } else {
          DoneIsUpdate(d, srv, prune, done, a, rest);
          BindingAdvances(d, srv, prune, syntax, a, rest);
        }
    }
  }

  lemma BindingAdvances(d: ManifestSecret, e: Entry, prune: bool, syntax: Syntax, a: Action, rest: seq<Action>)
    requires Sound(d) && CleanEntry(Some(e)) && e.typ == OrKv(d.typ) && BindingPlan(d, e.rows, prune) == [a] + rest
    ensures Advances(d, Some(e), prune, syntax, UpdateFor(d, e), a, rest)
  {
    hide Sound, CleanEntry, Advances, UpdateFor, Missing, Undeclared, Keys, Key, RowKey;
    var b := BindingPlan(d, e.rows, prune);
    assert b[0] == a && b[1..] == rest;
    if Missing(d.bindings, e.rows) != [] {
      BindAdvances(d, e, prune, syntax);
    } else {
      UnbindAdvances(d, e, syntax);
    }
  }
}
