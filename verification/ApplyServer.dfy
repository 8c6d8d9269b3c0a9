/** The loops of `gocactl apply`: the planner over a snapshot, and the executor against a live server. */
module ApplyServer {
  import opened Common
  import opened Text
  import opened ApplyManifest
  import opened ApplyPlan
  import opened ApplyResume

  method MetaChangesOf(d: ManifestSecret, srv: Entry) returns (out: seq<Field>)
    ensures out == MetaChanges(d, srv)
  {
    out := [];
    if d.description != srv.description {
      out := out + [Description];
    }
    if LabelsOf(d) != srv.labels {
      out := out + [Labels];
    }
    if d.rotationDays != srv.rotationDays {
      out := out + [RotationDays];
    }
  }

  method BindingPresent(have: seq<Triple>, want: Triple) returns (found: bool)
    ensures found <==> Starred(want) in have
  {
    for i := 0 to |have|
      invariant Starred(want) !in have[..i]
    {
      if have[i].ns == OrStar(want.ns) && have[i].sa == OrStar(want.sa) && have[i].auth == OrStar(want.auth) {
        return true;
      }
    }
    return false;
  }

  method PlanBinds(d: ManifestSecret, rows: seq<Triple>) returns (p: seq<Action>, declared: set<string>)
    ensures p == Binds(d.name, Missing(d.bindings, rows)) && declared == Keys(d.bindings)
  {
    hide Key, Starred, Binds;
    p, declared := [], {};
    BindsNil(d.name);
    for j := 0 to |d.bindings|
      invariant declared == Keys(d.bindings[..j])
      invariant Binds(d.name, Missing(d.bindings, rows)) == p + Binds(d.name, Missing(d.bindings[j..], rows))
    {
      var b := d.bindings[j];
      assert d.bindings[j..][0] == b && d.bindings[j..][1..] == d.bindings[j + 1..];
      assert d.bindings[..j + 1] == d.bindings[..j] + [b];
      var key := Key(b);
      declared := declared + {key};
      var present := BindingPresent(rows, b);
      ghost var rest := Missing(d.bindings[j + 1..], rows);
      if !present {
        BindsCons(d.name, b, rest);
        assert p + ([Bind(d.name, key)] + Binds(d.name, rest)) == p + [Bind(d.name, key)] + Binds(d.name, rest);
        p := p + [Bind(d.name, key)];
      } else {
        assert [] + rest == rest;
      }
    }
    assert d.bindings[..|d.bindings|] == d.bindings;
  }

  method PlanUnbinds(name: string, rows: seq<Triple>, declared: set<string>) returns (p: seq<Action>)
    ensures p == Unbinds(name, Undeclared(rows, declared))
  {
    hide RowKey, Unbinds;
    p := [];
    UnbindsNil(name);
    for j := 0 to |rows|
      invariant Unbinds(name, Undeclared(rows, declared)) == p + Unbinds(name, Undeclared(rows[j..], declared))
    {
      assert rows[j..][0] == rows[j] && rows[j..][1..] == rows[j + 1..];
      var key := RowKey(rows[j]);
      ghost var rest := Undeclared(rows[j + 1..], declared);
      if key !in declared {
        UnbindsCons(name, rows[j], rest);
        assert p + ([Unbind(name, key)] + Unbinds(name, rest)) == p + [Unbind(name, key)] + Unbinds(name, rest);
        p := p + [Unbind(name, key)];
      } else {
        assert [] + rest == rest;
      }
    }
  }

  lemma BindsNil(name: string)
    ensures Binds(name, []) == []
  {
  }

  lemma UnbindsNil(name: string)
    ensures Unbinds(name, []) == []
  {
  }

  lemma BindsCons(name: string, b: Triple, rest: seq<Triple>)
    ensures Binds(name, [b] + rest) == [Bind(name, Key(b))] + Binds(name, rest)
  {
  }

  lemma UnbindsCons(name: string, r: Triple, rest: seq<Triple>)
    ensures Unbinds(name, [r] + rest) == [Unbind(name, RowKey(r))] + Unbinds(name, rest)
  {
  }

  method PlanSecret(d: ManifestSecret, e: Option<Entry>, prune: bool) returns (p: seq<Action>)
    ensures p == PlanOne(d, e, prune)
  {
    hide MetaChanges, Missing, Undeclared, Key, RowKey;
    match e {
      case None =>
        p := [CreateSecret(d.name)];
        for j := 0 to |d.bindings|
          invariant p == [CreateSecret(d.name)] + Binds(d.name, d.bindings[..j])
        {
          p := p + [Bind(d.name, Key(d.bindings[j]))];
        }
        assert d.bindings[..|d.bindings|] == d.bindings;
      case Some(srv) =>
        if srv.typ != OrKv(d.typ) {
          return [UpdateSecret(d.name, [])];
        }
        var changes := MetaChangesOf(d, srv);
        p := if changes != [] then [UpdateSecret(d.name, changes)] else [];
        var binds, declared := PlanBinds(d, srv.rows);
        var unbinds := [];
        if prune {
          unbinds := PlanUnbinds(d.name, srv.rows, declared);
        }
        p := p + (binds + unbinds);
    }
  }

  method PlanFromState(m: Manifest, st: State, prune: bool) returns (p: seq<Action>)
    ensures p == Plan(m, st, prune)
  {
    hide PlanOne;
    p := [];
    for i := 0 to |m|
      invariant p + Plan(m[i..], st, prune) == Plan(m, st, prune)
    {
      assert m[i..] == [m[i]] + m[i + 1..];
      var q := PlanSecret(m[i], View(st, m[i].name), prune);
      p := p + q;
    }
  }

  /** Look for the first row with the key and drop it; without one, nothing changes. */
  method RemoveFirst(rows: seq<Triple>, key: string) returns (r: seq<Triple>)
    ensures r == WithoutFirst(rows, key)
  {
    hide RowKey;
    for i := 0 to |rows|
      invariant WithoutFirst(rows, key) == rows[..i] + WithoutFirst(rows[i..], key)
    {
      assert rows[i..][0] == rows[i] && rows[i..][1..] == rows[i + 1..];
      if RowKey(rows[i]) == key {
        return rows[..i] + rows[i + 1..];
      }
      assert rows[..i] + ([rows[i]] + WithoutFirst(rows[i + 1..], key))
        == rows[..i + 1] + WithoutFirst(rows[i + 1..], key);
    }
    return rows;
  }

  /** The server's secrets, as its API changes them. */
  class Server {
    var state: State

    method Create(name: string, typ: string, description: string, labels: Option<map<string, string>>,
        rotationDays: int, certId: Option<int>, certExists: bool)
        returns (err: Option<ExecError>)
      modifies this
      ensures var n := Trim(name);
              var good := (typ in {"", "kv", "file"} && certId.None?)
                || (typ == "certificate" && certId.Some? && certExists);
              if n == "" || !good then err == Some(Refused) && state == old(state)
              else if n in old(state).entries then err == Some(Exists) && state == old(state)
              else
                && err == None
                && state == State(old(state).entries[n := Entry(if typ == "" then "kv" else typ, description,
                  if labels.Some? then labels.value else map[], rotationDays, [])],
                                  old(state).names[old(state).nextId := n], old(state).nextId + 1)
    {
      var n := Trim(name);
      if n == "" {
        return Some(Refused);
      }
      var t := if typ == "" then "kv" else typ;
      if t == "kv" || t == "file" {
        if certId.Some? {
          return Some(Refused);
        }
      } else if t == "certificate" {
        if certId.None? || !certExists {
          return Some(Refused);
        }
      } else {
        return Some(Refused);
      }
      if n in state.entries {
        return Some(Exists);
      }
      state := State(state.entries[n := Entry(t, description, if labels.Some? then labels.value else map[],
        rotationDays, [])],
                     state.names[state.nextId := n], state.nextId + 1);
      return None;
    }

    /** PATCH on what the reference means, an id before a name; an absent or null field keeps its value. */
    method Update(ref: string, description: Option<string>, labels: Option<map<string, string>>,
        rotationDays: Option<int>)
        returns (err: Option<ExecError>)
      modifies this
      ensures match Resolve(old(state), ref)
              case None => err == Some(NotFound) && state == old(state)
              case Some(n) =>
                var e := old(state).entries[n];
                && err == None
                && state == old(state).(entries := old(state).entries[n := Entry(e.typ,
                     if description.Some? then description.value else e.description,
                     if labels.Some? then labels.value else e.labels,
                     if rotationDays.Some? then rotationDays.value else e.rotationDays, e.rows)])
    {
      var target := Resolve(state, ref);
      if target.None? {
        return Some(NotFound);
      }
      var e := state.entries[target.value];
      if description.Some? {
        e := e.(description := description.value);
      }
      if labels.Some? {
        e := e.(labels := labels.value);
      }
      if rotationDays.Some? {
        e := e.(rotationDays := rotationDays.value);
      }
      state := state.(entries := state.entries[target.value := e]);
      return None;
    }

    method BindSecret(ref: string, b: Triple, syntax: Syntax) returns (err: Option<ExecError>)
      modifies this
      ensures match Resolve(old(state), ref)
              case None => err == Some(NotFound) && state == old(state)
              case Some(n) =>
                var e := old(state).entries[n];
                var c := Canonicalized(b);
                if !(syntax(c.ns) && syntax(c.sa) && syntax(c.auth)) then err == Some(Refused) && state == old(state)
                else
                  && err == None
                  && state == old(state).(entries := old(state).entries[n := e.(rows := e.rows + [c])])
    {
      var target := Resolve(state, ref);
      if target.None? {
        return Some(NotFound);
      }
      var row := Canonicalized(b);
      if !syntax(row.ns) || !syntax(row.sa) || !syntax(row.auth) {
        return Some(Refused);
      }
      var e := state.entries[target.value];
      state := state.(entries := state.entries[target.value := e.(rows := e.rows + [row])]);
      return None;
    }

    /** List the rows, delete the first one with the key. */
    method UnbindFirst(ref: string, key: string) returns (err: Option<ExecError>)
      modifies this
      ensures match Resolve(old(state), ref)
              case None => err == Some(NotFound) && state == old(state)
              case Some(n) =>
                var e := old(state).entries[n];
                && err == None
                && state == old(state).(entries := old(state).entries[n := e.(rows := WithoutFirst(e.rows, key))])
    {
      hide Trim, RowKey;
      var target := Resolve(state, ref);
      if target.None? {
        return Some(NotFound);
      }
      var e := state.entries[target.value];
      var rows := RemoveFirst(e.rows, key);
      state := state.(entries := state.entries[target.value := e.(rows := rows)]);
      return None;
    }

    method StepOn(m: Manifest, d: ManifestSecret, a: Action, syntax: Syntax) returns (err: Option<ExecError>)
      requires d == ByName(m, a.secret)
      modifies this
      ensures match Step(m, old(state), a, syntax)
              case Ok(t) => err == None && state == t
              case Err(e) => err == Some(e) && state == old(state)
    {
      hide ByName, Trim, Canonicalized, WithoutFirst;
      match a {
        case CreateSecret(_) =>
          err := Create(d.name, OrKv(d.typ), d.description, d.labels, d.rotationDays, None, false);
        case UpdateSecret(_, fields) =>
          if fields == [] {
            return None;
          }
          err := Update(d.name,
            if Description in fields then Some(d.description) else None,
            if Labels in fields then d.labels else None,
            if RotationDays in fields then Some(d.rotationDays) else None);
        case Bind(_, key) =>
          match FindByKey(d.bindings, key) {
            case None => return Some(NoDeclaredBinding);
            case Some(b) => err := BindSecret(d.name, b, syntax);
          }
        case Unbind(_, key) =>
          err := UnbindFirst(d.name, key);
      }
    }

    /** The executor: the plan's actions in order, up to the first error. */
    method Run(m: Manifest, p: seq<Action>, syntax: Syntax) returns (err: Option<ExecError>, count: nat)
      modifies this
      ensures count <= |p| && Execute(m, old(state), p[..count], syntax) == Ok(state)
      ensures match Execute(m, old(state), p, syntax)
              case Ok(t) => err == None && count == |p|
              case Err(e) => err == Some(e) && count < |p| && Step(m, state, p[count], syntax) == Err(e)
    {
      hide Step, ByName;
      count := 0;
      while count < |p|
        invariant count <= |p|
        invariant Execute(m, old(state), p[..count], syntax) == Ok(state)
        invariant Execute(m, old(state), p, syntax) == Execute(m, state, p[count..], syntax)
      {
        ghost var before := state;
        assert p[count..][0] == p[count] && p[count..][1..] == p[count + 1..];
        err := StepOn(m, ByName(m, p[count].secret), p[count], syntax);
        if err != None {
          return err, count;
        }
        assert p[..count + 1] == p[..count] + [p[count]];
        ExecuteSnoc(m, old(state), p[..count], p[count], syntax);
        count := count + 1;
      }
      assert p[..|p|] == p;
      return None, count;
    }
  }
}
