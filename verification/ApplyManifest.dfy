/** The manifest of `gocactl apply`: its entries, its binding keys and the checks made when it is read. */
module ApplyManifest {
  import opened Common
  import opened Text

  const NUL: char := '\U{0}'

  /** A binding's three patterns; an empty one stands for "*". Expiry is not part of the comparison. */
  datatype Triple = Triple(ns: string, sa: string, auth: string)

  /** `labels` is None when the manifest declares none, which is not the same as an empty map. */
  datatype ManifestSecret = ManifestSecret(name: string, typ: string, description: string,
                                           labels: Option<map<string, string>>, rotationDays: int,
                                             bindings: seq<Triple>)

  type Manifest = seq<ManifestSecret>

  function OrKv(typ: string): string {
    if typ == "" then "kv" else typ
  }

  function OrStar(v: string): string {
    if v == "" then "*" else v
  }

  function Starred(b: Triple): Triple {
    Triple(OrStar(b.ns), OrStar(b.sa), OrStar(b.auth))
  }

  function Key(b: Triple): string {
    OrStar(b.ns) + [NUL] + OrStar(b.sa) + [NUL] + OrStar(b.auth)
  }

  /** What parseManifest writes back into each binding field. */
  function Canonicalized(b: Triple): Triple {
    Triple(OrStar(Trim(b.ns)), OrStar(Trim(b.sa)), OrStar(Trim(b.auth)))
  }

  /** A blank type means "kv" and a blank pattern "*"; anything else stands for itself. */
  lemma Defaults(v: string)
    ensures OrKv(v) == v || (v == "" && OrKv(v) == "kv")
    ensures OrStar(v) == v || (v == "" && OrStar(v) == "*")
    ensures OrKv(v) != "" && OrStar(v) != "" && NUL as int == 0
  {
  }

  predicate CleanField(v: string) {
    v != "" && Trimmed(v) && NUL !in v
  }

  predicate Clean(b: Triple) {
    CleanField(b.ns) && CleanField(b.sa) && CleanField(b.auth)
  }

  predicate NulFree(b: Triple) {
    NUL !in b.ns && NUL !in b.sa && NUL !in b.auth
  }

  lemma FieldCleans(v: string)
    ensures NUL !in v ==> CleanField(OrStar(Trim(v)))
    ensures CleanField(v) ==> OrStar(Trim(v)) == v && OrStar(v) == v
  {
  }

  /** Reading the manifest leaves only clean bindings, provided no field holds a NUL. */
  lemma CanonicalizedIsClean(b: Triple)
    ensures NulFree(b) ==> Clean(Canonicalized(b))
    ensures Clean(b) ==> Canonicalized(b) == b && Starred(b) == b
  {
    FieldCleans(b.ns);
    FieldCleans(b.sa);
    FieldCleans(b.auth);
    hide CleanField, OrStar, Trim;
  }

  /** The NUL-joined key tells clean triples apart. */
  lemma KeyInjective(a: Triple, b: Triple)
    requires Clean(a) && Clean(b) && Key(a) == Key(b)
    ensures a == b
  {
    var xs, ys := [a.ns, a.sa, a.auth], [b.ns, b.sa, b.auth];
    KeyIsJoin(a);
    KeyIsJoin(b);
    SplitOfJoin(xs, NUL);
    SplitOfJoin(ys, NUL);
    assert xs[0] == ys[0] && xs[1] == ys[1] && xs[2] == ys[2];
  }

  lemma KeyIsJoin(a: Triple)
    requires Clean(a)
    ensures Key(a) == Join([a.ns, a.sa, a.auth], NUL)
  {
    var xs := [a.ns, a.sa, a.auth];
    assert xs[1..] == [a.sa, a.auth] && xs[1..][1..] == [a.auth];
    assert Join(xs[1..], NUL) == a.sa + [NUL] + a.auth;
  }

  /** Without that proviso two different triples can share a key. */
  lemma NulBreaksKeys()
    ensures var a, b := Triple("x" + [NUL] + "y", "z", "w"), Triple("x", "y" + [NUL] + "z", "w");
            a != b && Key(a) == Key(b)
  {
    assert "x" + [NUL] + "y" != "x" by {
      assert |"x" + [NUL] + "y"| == 3;
    }
  }

  // ---------- validateManifest ----------

  datatype Fault = BlankName | DuplicateName | CertificateType | UnknownType | DuplicateBinding

  datatype ManifestError = NoSecrets | At(index: nat, fault: Fault)

  predicate DistinctKeys(bs: seq<Triple>) {
    forall i, j :: 0 <= i < j < |bs| ==> Key(bs[i]) != Key(bs[j])
  }

  predicate NameTaken(m: Manifest, i: nat)
    requires i < |m|
  {
    exists j :: 0 <= j < i && m[j].name == m[i].name
  }

  /** The first thing wrong with the `i`th entry, given the ones before it. */
  function FaultAt(m: Manifest, i: nat): Option<Fault>
    requires i < |m|
  {
    var d := m[i];
    if Trim(d.name) == "" then Some(BlankName)
    else if NameTaken(m, i) then Some(DuplicateName)
    else if d.typ == "certificate" then Some(CertificateType)
    else if d.typ !in {"", "kv", "file"} then Some(UnknownType)
    else if !DistinctKeys(d.bindings) then Some(DuplicateBinding)
    else None
  }

  /** Earlier entries do not have this name. */
  ghost predicate NameIsNew(m: Manifest, i: nat)
    requires i < |m|
  {
    forall j :: 0 <= j < i ==> m[j].name != m[i].name
  }

  /** No two bindings of an entry are the same triple once blanks are read as "*". */
  ghost predicate KeysDiffer(bs: seq<Triple>) {
    forall i, j :: 0 <= i < j < |bs| ==> Key(bs[i]) != Key(bs[j])
  }

  /**
   * When each fault is reported: a blank name, then a name used before, then the type "certificate", then any
   * type but "kv" and "file", then a repeated binding.
   */
  lemma FaultExact(m: Manifest, i: nat)
    requires i < |m|
    ensures var d, fault := m[i], FaultAt(m, i);
            var named := Trim(d.name) != "" && NameIsNew(m, i);
            var typed := d.typ == "" || d.typ == "kv" || d.typ == "file";
            && (fault == Some(BlankName) <==> Trim(d.name) == "")
            && (fault == Some(DuplicateName) <==> Trim(d.name) != "" && !NameIsNew(m, i))
            && (fault == Some(CertificateType) <==> named && d.typ == "certificate")
            && (fault == Some(UnknownType) <==> named && d.typ != "certificate" && !typed)
            && (fault == Some(DuplicateBinding) <==> named && typed && !KeysDiffer(d.bindings))
            && (fault == None <==> named && typed && KeysDiffer(d.bindings))
  {
    hide Trim, Key;
    assert |"certificate"| == 11 && |"kv"| == 2 && |"file"| == 4;
  }

  predicate Validated(m: Manifest) {
    m != [] && forall i :: 0 <= i < |m| ==> FaultAt(m, i) == None
  }

  method HasDuplicateBinding(bs: seq<Triple>) returns (found: bool)
    ensures found <==> !DistinctKeys(bs)
  {
    var triples: set<string> := {};
    for j := 0 to |bs|
      invariant triples == set i | 0 <= i < j :: Key(bs[i])
      invariant DistinctKeys(bs[..j])
    {
      var key := Key(bs[j]);
      if key in triples {
        return true;
      }
      triples := triples + {key};
    }
    assert bs[..|bs|] == bs;
    return false;
  }

  /** The first faulty entry is reported with its first fault; no error means every entry is sound. */
  method ValidateManifest(m: Manifest) returns (err: Option<ManifestError>)
    ensures err == None <==> Validated(m)
    ensures err == None <==>
              && m != []
              && forall i :: 0 <= i < |m| ==>
                   && Trim(m[i].name) != "" && NameIsNew(m, i) && m[i].typ in {"", "kv", "file"}
                     && KeysDiffer(m[i].bindings)
    ensures err == Some(NoSecrets) <==> m == []
    ensures err.Some? && err.value.At? ==>
              var At(i, fault) := err.value;
              && i < |m| && FaultAt(m, i) == Some(fault)
              && forall j :: 0 <= j < i ==> FaultAt(m, j) == None
  {
    hide DistinctKeys, Trim, Key, KeysDiffer;
    forall i | 0 <= i < |m|
      ensures FaultAt(m, i) == None <==>
                && Trim(m[i].name) != "" && NameIsNew(m, i) && m[i].typ in {"", "kv", "file"}
                  && KeysDiffer(m[i].bindings)
    {
      FaultExact(m, i);
    }
    if |m| == 0 {
      return Some(NoSecrets);
    }
    var seen: set<string> := {};
    for i := 0 to |m|
      invariant seen == set j | 0 <= j < i :: m[j].name
      invariant forall j :: 0 <= j < i ==> FaultAt(m, j) == None
    {
      var d := m[i];
      ghost var fault := FaultAt(m, i);
      if Trim(d.name) == "" {
        return Some(At(i, BlankName));
      }
      if d.name in seen {
        assert NameTaken(m, i);
        return Some(At(i, DuplicateName));
      }
      seen := seen + {d.name};
      if d.typ == "certificate" {
        return Some(At(i, CertificateType));
      } else if d.typ !in {"", "kv", "file"} {
        return Some(At(i, UnknownType));
      }
      var duplicate := HasDuplicateBinding(d.bindings);
      if duplicate {
        return Some(At(i, DuplicateBinding));
      }
    }
    return None;
  }
}
