/**
 * What an ACME order may name, and what a finalized certificate carries.
 *
 * net.ParseIP and path.Match are parameters: `isAddress` says whether a text is an IP address, and
 * `glob(pattern, name)` is None for a malformed pattern and otherwise whether it matches.
 */
module AcmeNames {
  import opened Common
  import opened Text
  import opened Sans

  // ---------- host names ----------

  datatype NameError =
    | TooLong | IsAddress | StarNotLeftmost | WildcardTooShort
    | EmptyLabel | LongLabel | HyphenAtEdge | BadCharacter

  predicate LabelChar(c: char) {
    'a' <= c <= 'z' || '0' <= c <= '9' || c == '-'
  }

  /** A host name label, RFC 1123 section 2.1, lower case. */
  predicate IsLabel(l: string) {
    0 < |l| <= 63 && l[0] != '-' && l[|l| - 1] != '-' && forall c :: c in l ==> LabelChar(c)
  }

  /** A dot-separated host name, with at most one leading "*." that covers at least two labels. */
  ghost predicate IsHostName(v: string, isAddress: string -> bool) {
    && |v| <= 253 && !isAddress(v)
    && exists wildcard: bool, labels: seq<string> :: SpellsHost(v, wildcard, labels)
  }

  ghost predicate SpellsHost(v: string, wildcard: bool, labels: seq<string>) {
    && labels != [] && (wildcard ==> |labels| >= 2)
    && (forall l :: l in labels ==> IsLabel(l))
    && v == (if wildcard then "*." else "") + Join(labels, '.')
  }

  function LabelCheck(l: string): (err: Option<NameError>)
    ensures err.None? <==> IsLabel(l)
  {
    if l == "" then Some(EmptyLabel)
    else if |l| > 63 then Some(LongLabel)
    else if l[0] == '-' || l[|l| - 1] == '-' then Some(HyphenAtEdge)
    else if exists c :: c in l && !LabelChar(c) then Some(BadCharacter)
    else None
  }

  function LabelsCheck(labels: seq<string>): (err: Option<NameError>)
    ensures err.None? <==> forall l :: l in labels ==> IsLabel(l)
  {
    if labels == [] then None
    else if LabelCheck(labels[0]).Some? then LabelCheck(labels[0])
    else LabelsCheck(labels[1..])
  }

  function HostCheck(v: string, isAddress: string -> bool): Option<NameError> {
    if |v| > 253 then Some(TooLong)
    else if isAddress(v) then Some(IsAddress)
    else
      var wildcard := "*." <= v;
      var name := if wildcard then v[2..] else v;
      if '*' in name then Some(StarNotLeftmost)
      else
        var labels := Split(name, '.');
        if wildcard && |labels| < 2 then Some(WildcardTooShort) else LabelsCheck(labels)
  }

  method ValidLabel(l: string) returns (err: Option<NameError>)
    ensures err == LabelCheck(l)
  {
    if l == "" {
      return Some(EmptyLabel);
    }
    if |l| > 63 {
      return Some(LongLabel);
    }
    if l[0] == '-' || l[|l| - 1] == '-' {
      return Some(HyphenAtEdge);
    }
    for i := 0 to |l|
      invariant forall k :: 0 <= k < i ==> LabelChar(l[k])
    {
      if !LabelChar(l[i]) {
        assert l[i] in l;
        return Some(BadCharacter);
      }
    }
    return None;
  }

  method ValidDnsIdentifier(v: string, isAddress: string -> bool) returns (err: Option<NameError>)
    ensures err == HostCheck(v, isAddress)
  {
    if |v| > 253 {
      return Some(TooLong);
    }
    if isAddress(v) {
      return Some(IsAddress);
    }
    var wildcard := "*." <= v;
    var name := if wildcard then v[2..] else v;
    if '*' in name {
      return Some(StarNotLeftmost);
    }
    var labels := Split(name, '.');
    if wildcard && |labels| < 2 {
      return Some(WildcardTooShort);
    }
    var i := 0;
    while i < |labels|
      invariant 0 <= i <= |labels| && LabelsCheck(labels) == LabelsCheck(labels[i..])
    {
      err := ValidLabel(labels[i]);
      if err.Some? {
        return;
      }
      assert labels[i..][1..] == labels[i + 1..];
      i := i + 1;
    }
    return None;
  }

  /** A label holds neither a dot, a star nor a blank. */
  lemma LabelIsPlain(l: string)
    requires IsLabel(l)
    ensures '.' !in l && '*' !in l && forall c :: c in l ==> !IsSpace(c) && LowerChar(c) == c
  {
  }

  lemma {:induction false} JoinIsPlain(labels: seq<string>)
    requires labels != [] && forall l :: l in labels ==> IsLabel(l)
    ensures var v := Join(labels, '.');
            v != "" && v[0] != '*' && forall c :: c in v ==> LabelChar(c) || c == '.'
  {
    if |labels| > 1 {
      JoinIsPlain(labels[1..]);
    }
    assert labels[0] in labels && labels[0][0] in labels[0];
    assert Join(labels, '.')[0] == labels[0][0];
  }

  lemma AcceptedIsHostName(v: string, isAddress: string -> bool)
    requires HostCheck(v, isAddress).None?
    ensures IsHostName(v, isAddress)
  {
    hide IsLabel, LabelCheck, Join, Split;
    var wildcard := "*." <= v;
    var name := if wildcard then v[2..] else v;
    var labels := Split(name, '.');
    JoinOfSplit(name, '.');
    assert v == (if wildcard then "*." else "") + name;
    assert SpellsHost(v, wildcard, labels);
  }

  lemma LabelsSplit(labels: seq<string>)
    requires labels != [] && forall l :: l in labels ==> IsLabel(l)
    ensures Split(Join(labels, '.'), '.') == labels
  {
    hide IsLabel, Join, Split;
    forall l | l in labels
      ensures '.' !in l
    {
      LabelIsPlain(l);
    }
    SplitOfJoin(labels, '.');
  }

  /** A spelled host name is taken apart the way it was put together. */
  lemma SpelledSplits(v: string, w: bool, labels: seq<string>)
    requires SpellsHost(v, w, labels)
    ensures w <==> "*." <= v
    ensures var name := if w then v[2..] else v; '*' !in name && Split(name, '.') == labels
  {
    hide IsLabel, Join, Split;
    JoinIsPlain(labels);
    LabelsSplit(labels);
    var spelled := Join(labels, '.');
    if w {
      assert v[..2] == "*." && v[2..] == spelled;
    } else {
      assert v == spelled && v[0] != '*';
    }
  }

  /** The check accepts exactly the host names. */
  lemma HostCheckExact(v: string, isAddress: string -> bool)
    ensures HostCheck(v, isAddress).None? <==> IsHostName(v, isAddress)
  {
    hide IsLabel, LabelCheck;
    if HostCheck(v, isAddress).None? {
      AcceptedIsHostName(v, isAddress);
    }
    if IsHostName(v, isAddress) {
      var w, labels :| SpellsHost(v, w, labels);
      SpelledSplits(v, w, labels);
    }
  }

  /** A label holds small letters, digits and hyphens. */
  lemma LabelChars(c: char)
    ensures LabelChar(c) <==> 97 <= c as int <= 122 || 48 <= c as int <= 57 || c as int == 45
  {
  }

  /** Which fault of a label is reported. */
  lemma LabelFaults(l: string)
    ensures var short := 0 < |l| <= 63;
            && (LabelCheck(l) == Some(EmptyLabel) <==> l == "")
            && (LabelCheck(l) == Some(LongLabel) <==> |l| > 63)
            && (LabelCheck(l) == Some(HyphenAtEdge) <==> short && (l[0] == '-' || l[|l| - 1] == '-'))
            && (LabelCheck(l) == Some(BadCharacter)
                <==> short && l[0] != '-' && l[|l| - 1] != '-' && exists c :: c in l && !LabelChar(c))
  {
  }

  lemma OnePartIff(s: string, sep: char)
    ensures |Split(s, sep)| == 1 <==> sep !in s
  {
    hide Split;
    JoinOfSplit(s, sep);
    var parts := Split(s, sep);
    if |parts| == 1 {
      assert parts[0] in parts;
    } else {
      assert Join(parts, sep)[|parts[0]|] == sep;
    }
  }

  /** Which fault of a name is reported; after these come those of its labels, from the left. */
  lemma HostFaults(v: string, isAddress: string -> bool)
    ensures var w := |v| >= 2 && v[0] == '*' && v[1] == '.';
            var name := if w then v[2..] else v;
            var fault := HostCheck(v, isAddress);
            && (fault == Some(TooLong) <==> |v| > 253)
            && (fault == Some(IsAddress) <==> |v| <= 253 && isAddress(v))
            && (fault == Some(StarNotLeftmost) <==> |v| <= 253 && !isAddress(v) && '*' in name)
            && (fault == Some(WildcardTooShort)
                <==> |v| <= 253 && !isAddress(v) && '*' !in name && w && '.' !in name)
            && (|v| <= 253 && !isAddress(v) && '*' !in name && (w ==> '.' in name) ==>
                  fault == LabelsCheck(Split(name, '.')))
  {
    hide Split, LabelsCheck, LabelCheck;
    var w := |v| >= 2 && v[0] == '*' && v[1] == '.';
    assert w <==> "*." <= v by {
      assert |v| >= 2 ==> v[..2] == [v[0], v[1]];
    }
    OnePartIff(if w then v[2..] else v, '.');
    LabelsFaultOfLabel(Split(if w then v[2..] else v, '.'));
  }

  /** The fault of a list of labels is that of its first faulty one, so it is a fault of a label. */
  lemma {:induction false} LabelsFaultOfLabel(labels: seq<string>)
    ensures LabelsCheck(labels).Some? ==>
              exists k :: 0 <= k < |labels| && LabelCheck(labels[k]) == LabelsCheck(labels)
                && forall j :: 0 <= j < k ==> LabelCheck(labels[j]) == None
    ensures LabelsCheck(labels) !in {Some(TooLong), Some(IsAddress), Some(StarNotLeftmost), Some(WildcardTooShort)}
  {
    if labels != [] && LabelCheck(labels[0]).None? {
      LabelsFaultOfLabel(labels[1..]);
      if LabelsCheck(labels).Some? {
        var k :| 0 <= k < |labels[1..]| && LabelCheck(labels[1..][k]) == LabelsCheck(labels[1..])
          && forall j :: 0 <= j < k ==> LabelCheck(labels[1..][j]) == None;
        assert forall j :: 0 < j < |labels| ==> labels[j] == labels[1..][j - 1];
        assert LabelCheck(labels[k + 1]) == LabelsCheck(labels);
      }
    }
  }

  /** A host name is not blank, carries no blanks, and is already lower case. */
  lemma HostNameIsCanonical(v: string, isAddress: string -> bool)
    requires IsHostName(v, isAddress)
    ensures v != "" && Trimmed(v) && Lower(v) == v
  {
    var w, labels :| SpellsHost(v, w, labels);
    JoinIsPlain(labels);
    var spelled := Join(labels, '.');
    assert v == (if w then "*." else "") + spelled;
    forall i | 0 <= i < |v|
      ensures !IsSpace(v[i]) && LowerChar(v[i]) == v[i]
    {
      if !w || i >= 2 {
        assert v[i] == spelled[if w then i - 2 else i] && v[i] in spelled;
      }
    }
  }

  // ---------- the credential's scope ----------

  type Glob = (string, string) -> Option<bool>

  function DropDot(s: string): string {
    if s != [] && s[|s| - 1] == '.' then s[..|s| - 1] else s
  }

  predicate PatternAdmits(p: string, name: string, glob: Glob) {
    var pat := Lower(Trim(p));
    pat != "" && glob(pat, name) == Some(true)
  }

  predicate DomainAllowed(patterns: seq<string>, identifier: string, glob: Glob) {
    patterns == [] || exists p :: p in patterns && PatternAdmits(p, Lower(DropDot(identifier)), glob)
  }

  /**
   * Without patterns every name is allowed. With some, exactly those that one of them matches, trimmed and
   * in lower case, the name in lower case and without a final dot; blank and malformed patterns match nothing.
   */
  lemma DomainAllowedExact(patterns: seq<string>, identifier: string, glob: Glob)
    ensures patterns == [] ==> DomainAllowed(patterns, identifier, glob)
    ensures patterns != [] ==>
              (DomainAllowed(patterns, identifier, glob)
               <==> exists k :: 0 <= k < |patterns| && Lower(Trim(patterns[k])) != ""
                      && glob(Lower(Trim(patterns[k])), Lower(DropDot(identifier))) == Some(true))
    ensures identifier != "" && identifier[|identifier| - 1] == '.' ==>
              DropDot(identifier) == identifier[..|identifier| - 1]
    ensures identifier == "" || identifier[|identifier| - 1] != '.' ==> DropDot(identifier) == identifier
  {
    hide Lower, Trim;
    forall p | p in patterns && PatternAdmits(p, Lower(DropDot(identifier)), glob)
      ensures exists k :: 0 <= k < |patterns| && Lower(Trim(patterns[k])) != ""
                && glob(Lower(Trim(patterns[k])), Lower(DropDot(identifier))) == Some(true)
    {
      var k :| 0 <= k < |patterns| && patterns[k] == p;
    }
    forall k | 0 <= k < |patterns| && Lower(Trim(patterns[k])) != ""
               && glob(Lower(Trim(patterns[k])), Lower(DropDot(identifier))) == Some(true)
      ensures DomainAllowed(patterns, identifier, glob)
    {
      assert patterns[k] in patterns && PatternAdmits(patterns[k], Lower(DropDot(identifier)), glob);
    }
  }

  datatype PatternError = Malformed(raw: string) | MatchesEverything(raw: string)

  function Normal(raw: string): string {
    Lower(DropDot(Trim(raw)))
  }

  /** strings.Trim(p, "*?.") is empty. */
  predicate OnlyWildcards(p: string) {
    forall c :: c in p ==> c in "*?."
  }

  /** What one more pattern does to the list accepted so far. */
  function Accept(raw: string, out: seq<string>, glob: Glob): Result<seq<string>, PatternError> {
    var p := Normal(raw);
    if p == "" || p in out then Ok(out)
    else if glob(p, "").None? then Err(Malformed(raw))
    else if OnlyWildcards(p) then Err(MatchesEverything(raw))
    else Ok(out + [p])
  }

  function NormalizeFrom(raws: seq<string>, out: seq<string>, glob: Glob): Result<seq<string>, PatternError> {
    if raws == [] then Ok(out)
    else
      match Accept(raws[0], out, glob)
      case Err(e) => Err(e)
      case Ok(next) => NormalizeFrom(raws[1..], next, glob)
  }

  method NormalizeDomainPatterns(raws: seq<string>, glob: Glob) returns (r: Result<seq<string>, PatternError>)
    ensures r == NormalizeFrom(raws, [], glob)
  {
    hide Normal, OnlyWildcards;
    var seen: set<string> := {};
    var out := [];
    var i := 0;
    while i < |raws|
      invariant 0 <= i <= |raws| && seen == ElementsOf(out)
      invariant NormalizeFrom(raws, [], glob) == NormalizeFrom(raws[i..], out, glob)
    {
      var p := Normal(raws[i]);
      assert raws[i..][0] == raws[i] && raws[i..][1..] == raws[i + 1..];
      if !(p == "" || p in seen) {
        if glob(p, "").None? {
          return Err(Malformed(raws[i]));
        }
        if OnlyWildcards(p) {
          return Err(MatchesEverything(raws[i]));
        }
        assert Accept(raws[i], out, glob) == Ok(out + [p]);
        seen := seen + {p};
        out := out + [p];
      }
      i := i + 1;
    }
    return Ok(out);
  }

  function ElementsOf(names: seq<string>): set<string> {
    set n | n in names
  }

  ghost predicate Mentions(raws: seq<string>, p: string) {
    exists raw :: raw in raws && Normal(raw) == p
  }

  lemma MentionsHeadOrTail(raws: seq<string>, p: string)
    requires raws != []
    ensures Mentions(raws, p) <==> Normal(raws[0]) == p || Mentions(raws[1..], p)
  {
    assert forall raw :: raw in raws <==> raw == raws[0] || raw in raws[1..];
  }

  /** An accepted list holds each non-blank normalized pattern once, and nothing malformed or all-wildcard. */
  lemma {:induction false} NormalizedExact(raws: seq<string>, out: seq<string>, glob: Glob)
    requires Distinct(out) && NormalizeFrom(raws, out, glob).Ok?
    ensures var r := NormalizeFrom(raws, out, glob).value;
            && Distinct(r)
            && (forall p :: p in r <==> p in out || (p != "" && Mentions(raws, p)))
            && (forall p :: p in r && p !in out ==> glob(p, "").Some? && !OnlyWildcards(p))
  {
    hide Normal, OnlyWildcards;
    if raws != [] {
      var next := Accept(raws[0], out, glob).value;
      NormalizedExact(raws[1..], next, glob);
      var r := NormalizeFrom(raws, out, glob).value;
      forall p: string
        ensures p in r <==> p in out || (p != "" && Mentions(raws, p))
      {
        MentionsHeadOrTail(raws, p);
      }
    }
  }

  /** CreateEAB's choice between an allow list and an explicit "any domain". */
  datatype ScopeError = BadPattern(e: PatternError) | NoDomains | Both

  function CredentialScope(raws: seq<string>, allowAny: bool, glob: Glob): Result<seq<string>, ScopeError> {
    match NormalizeFrom(raws, [], glob)
    case Err(e) => Err(BadPattern(e))
    case Ok(domains) =>
      if domains == [] && !allowAny then Err(NoDomains)
      else if domains != [] && allowAny then Err(Both)
      else Ok(domains)
  }

  /** What is wrong with a pattern: it is malformed, or it is well-formed and all wildcards and dots. */
  ghost predicate Offends(raw: string, e: PatternError, glob: Glob) {
    && Normal(raw) != ""
    && match e
       case Malformed(r) => r == raw && glob(Normal(raw), "").None?
       case MatchesEverything(r) =>
         r == raw && glob(Normal(raw), "").Some? && forall c :: c in Normal(raw) ==> c in "*?."
  }

  ghost predicate Unobjectionable(raw: string, glob: Glob) {
    Normal(raw) == "" || (glob(Normal(raw), "").Some? && exists c :: c in Normal(raw) && c !in "*?.")
  }

  ghost predicate FirstOffence(raws: seq<string>, k: nat, e: PatternError, glob: Glob) {
    k < |raws| && Offends(raws[k], e, glob) && forall j :: 0 <= j < k ==> Unobjectionable(raws[j], glob)
  }

  lemma AcceptExact(raw: string, out: seq<string>, glob: Glob)
    requires forall p :: p in out ==> p != "" && glob(p, "").Some? && !OnlyWildcards(p)
    ensures var r := Accept(raw, out, glob);
            && (r.Err? ==> Offends(raw, r.error, glob))
            && (r.Ok? <==> Unobjectionable(raw, glob))
            && (r.Ok? ==> forall p :: p in r.value ==> p != "" && glob(p, "").Some? && !OnlyWildcards(p))
  {
    hide Normal;
  }

  /** A list is refused exactly if a pattern of it offends, and then for the first one that does. */
  lemma {:induction false} NormalizeFirstFault(raws: seq<string>, out: seq<string>, glob: Glob)
    requires forall p :: p in out ==> p != "" && glob(p, "").Some? && !OnlyWildcards(p)
    ensures var r := NormalizeFrom(raws, out, glob);
            && (r.Ok? <==> forall k :: 0 <= k < |raws| ==> Unobjectionable(raws[k], glob))
            && (r.Err? ==> exists k: nat :: FirstOffence(raws, k, r.error, glob))
  {
    hide Normal, Offends, Unobjectionable, Accept, OnlyWildcards;
    if raws != [] {
      AcceptExact(raws[0], out, glob);
      var a := Accept(raws[0], out, glob);
      if a.Err? {
        assert FirstOffence(raws, 0, a.error, glob);
        assert !Unobjectionable(raws[0], glob);
      } else {
        NormalizeFirstFault(raws[1..], a.value, glob);
        assert forall k :: 0 < k < |raws| ==> raws[k] == raws[1..][k - 1];
        assert forall k :: 0 <= k < |raws[1..]| ==> raws[1..][k] == raws[k + 1];
        var r := NormalizeFrom(raws, out, glob);
        if r.Err? {
          var k: nat :| FirstOffence(raws[1..], k, r.error, glob);
          assert FirstOffence(raws, k + 1, r.error, glob);
        }
      }
    }
  }

  /** A credential is refused for an offending pattern, for naming no domain, or for naming one and any domain. */
  lemma CredentialScopeRefusals(raws: seq<string>, allowAny: bool, glob: Glob)
    ensures var r := CredentialScope(raws, allowAny, glob);
            var good := forall k :: 0 <= k < |raws| ==> Unobjectionable(raws[k], glob);
            var blank := forall k :: 0 <= k < |raws| ==> Normal(raws[k]) == "";
            && (r.Err? && r.error.BadPattern? <==> !good)
            && (r.Err? && r.error.BadPattern? ==> exists k: nat :: FirstOffence(raws, k, r.error.e, glob))
            && (r == Err(NoDomains) <==> good && blank && !allowAny)
            && (r == Err(Both) <==> good && !blank && allowAny)
  {
    hide Normal, Offends, OnlyWildcards, FirstOffence;
    NormalizeFirstFault(raws, [], glob);
    if NormalizeFrom(raws, [], glob).Ok? {
      NormalizedExact(raws, [], glob);
      var r := NormalizeFrom(raws, [], glob).value;
      forall k | 0 <= k < |raws| && Normal(raws[k]) != ""
        ensures Normal(raws[k]) in r
      {
        assert raws[k] in raws && Mentions(raws, Normal(raws[k]));
      }
      if r != [] {
        assert r[0] in r;
        var raw :| raw in raws && Normal(raw) == r[0];
        var k :| 0 <= k < |raws| && raws[k] == raw;
      }
    }
  }

  /**
   * A created credential admits a name exactly when the operator asked for any domain, or one of the
   * patterns as given (normalized) admits it. A list of blank patterns never means "any domain".
   */
  lemma CredentialScopeExact(raws: seq<string>, allowAny: bool, glob: Glob, identifier: string)
    requires CredentialScope(raws, allowAny, glob).Ok?
    ensures DomainAllowed(CredentialScope(raws, allowAny, glob).value, identifier, glob)
       <==> allowAny || exists raw :: raw in raws && Normal(raw) != ""
                          && PatternAdmits(Normal(raw), Lower(DropDot(identifier)), glob)
    ensures CredentialScope(raws, allowAny, glob).value == [] <==> allowAny
  {
    NormalizedExact(raws, [], glob);
    var r := CredentialScope(raws, allowAny, glob).value;
    forall raw | raw in raws && Normal(raw) != ""
      ensures Normal(raw) in r
    {
      assert Mentions(raws, Normal(raw));
    }
  }

  /** The pattern, as DomainAllowed reads it, consists of wildcards and dots only. */
  predicate ReadsAsWildcards(p: string) {
    var pat := Lower(Trim(p));
    pat != "" && OnlyWildcards(pat)
  }

  /** The refusal looks at the normal form before blanks are trimmed from it a second time. */
  predicate SlipsThrough(raw: string) {
    ReadsAsWildcards(Normal(raw)) && !Trimmed(Normal(raw))
  }

  /** A normal form with blanks left at an end is not all wildcards, whatever is inside. */
  lemma BlankIsNoWildcard(p: string)
    requires !Trimmed(p)
    ensures !OnlyWildcards(p)
  {
    assert p[0] in p && p[|p| - 1] in p;
  }

  /** On one pattern the refusal misses exactly if blanks are left at an end of its normal form. */
  lemma WildcardRefusalMissesIff(raw: string, out: seq<string>, glob: Glob)
    requires Normal(raw) != "" && Normal(raw) !in out && glob(Normal(raw), "").Some?
    requires ReadsAsWildcards(Normal(raw))
    ensures Accept(raw, out, glob).Ok? <==> SlipsThrough(raw)
  {
    var p := Normal(raw);
    LowerIdempotent(DropDot(Trim(raw)));
    if Trimmed(p) {
      assert Trim(p) == p && Lower(p) == p;
    } else {
      BlankIsNoWildcard(p);
    }
  }

  lemma AcceptedReads(raw: string, out: seq<string>, glob: Glob)
    requires Accept(raw, out, glob).Ok? && Normal(raw) != "" && Normal(raw) !in out
    ensures ReadsAsWildcards(Normal(raw)) <==> SlipsThrough(raw)
  {
    hide Trim, Trimmed, Normal, OnlyWildcards, Lower;
    if ReadsAsWildcards(Normal(raw)) {
      WildcardRefusalMissesIff(raw, out, glob);
    }
  }

  /**
   * A stored pattern is read as wildcards only exactly if one of the patterns given slips through; so no
   * credential meant to be restricted admits every name, unless it was given such a pattern.
   */
  lemma {:induction false} WildcardsSlipThroughIff(raws: seq<string>, out: seq<string>, glob: Glob)
    requires NormalizeFrom(raws, out, glob).Ok?
    ensures (exists p :: p in NormalizeFrom(raws, out, glob).value && ReadsAsWildcards(p))
       <==> (exists p :: p in out && ReadsAsWildcards(p)) || exists raw :: raw in raws && SlipsThrough(raw)
  {
    hide Normal, ReadsAsWildcards, SlipsThrough, OnlyWildcards;
    if raws != [] {
      var next := Accept(raws[0], out, glob).value;
      WildcardsSlipThroughIff(raws[1..], next, glob);
      OneMore(raws[0], out, glob);
      assert forall raw :: raw in raws <==> raw == raws[0] || raw in raws[1..];
    }
  }

  lemma EmptyReadsAsNothing()
    ensures !ReadsAsWildcards("")
  {
  }

  lemma OneMore(raw: string, out: seq<string>, glob: Glob)
    requires Accept(raw, out, glob).Ok?
    ensures (exists p :: p in Accept(raw, out, glob).value && ReadsAsWildcards(p))
       <==> (exists p :: p in out && ReadsAsWildcards(p)) || SlipsThrough(raw)
  {
    hide Normal, OnlyWildcards, ReadsAsWildcards, Trimmed, Trim;
    var p := Normal(raw);
    EmptyReadsAsNothing();
    if p != "" && p !in out {
      AcceptedReads(raw, out, glob);
      assert forall q :: q in out + [p] <==> q in out || q == p;
    }
  }

  /** For one, "* ." is stored as "* ", which `DomainAllowed` then reads as "*". */
  lemma WildcardRefusalMissesBlank(glob: Glob)
    requires glob("* ", "").Some?
    ensures NormalizeFrom(["* ."], [], glob) == Ok(["* "])
    ensures Lower(Trim("* ")) == "*" && OnlyWildcards("*")
  {
    assert TrimLeft("* .") == "* ." && TrimRight("* .") == "* .";
    assert DropDot("* .") == "* ";
    assert Lower("* ") == "* ";
    assert Normal("* .") == "* ";
    assert "* "[1] == ' ' && ' ' in "* ";
    assert !OnlyWildcards("* ");
    assert [] + ["* "] == ["* "];
    assert Accept("* .", [], glob) == Ok(["* "]);
    assert ["* ."][1..] == [];
    assert "* "[..1] == "*" && TrimRight("*") == "*" && TrimRight("* ") == "*" && TrimLeft("* ") == "* ";
  }

  lemma LowerIdempotent(s: string)
    ensures Lower(Lower(s)) == Lower(s)
  {
    assert forall i :: 0 <= i < |s| ==> Lower(Lower(s))[i] == Lower(s)[i];
  }

  // ---------- the identifiers of an order ----------

  datatype Requested = Requested(kind: string, value: string)

  datatype OrderError =
    | NoIdentifiers | UnsupportedKind(kind: string) | EmptyValue
    | BadName(e: NameError) | OutsideScope(value: string)

  function IdentifierCheck(r: Requested, patterns: seq<string>, isAddress: string -> bool, glob: Glob):
      Result<string, OrderError>
  {
    var kind := Lower(Trim(r.kind));
    var val := Lower(Trim(r.value));
    if kind != "" && kind != "dns" then Err(UnsupportedKind(kind))
    else if val == "" then Err(EmptyValue)
    else if HostCheck(val, isAddress).Some? then Err(BadName(HostCheck(val, isAddress).value))
    else if !DomainAllowed(patterns, val, glob) then Err(OutsideScope(val))
    else Ok(val)
  }

  function IdentifiersFrom(rs: seq<Requested>, idents: seq<string>, patterns: seq<string>, isAddress: string -> bool,
      glob: Glob):
      Result<seq<string>, OrderError>
  {
    if rs == [] then Ok(idents)
    else
      match IdentifierCheck(rs[0], patterns, isAddress, glob)
      case Err(e) => Err(e)
      case Ok(v) => IdentifiersFrom(rs[1..], idents + [v], patterns, isAddress, glob)
  }

  function OrderIdentifiers(rs: seq<Requested>, patterns: seq<string>, isAddress: string -> bool, glob: Glob):
      Result<seq<string>, OrderError>
  {
    if rs == [] then Err(NoIdentifiers) else IdentifiersFrom(rs, [], patterns, isAddress, glob)
  }

  ghost predicate AdmittedName(v: string, patterns: seq<string>, isAddress: string -> bool, glob: Glob) {
    IsHostName(v, isAddress) && DomainAllowed(patterns, v, glob)
  }

  /** The type is blank or "dns", and the credential admits the name. */
  ghost predicate Acceptable(r: Requested, patterns: seq<string>, isAddress: string -> bool, glob: Glob) {
    Lower(Trim(r.kind)) in {"", "dns"} && AdmittedName(Lower(Trim(r.value)), patterns, isAddress, glob)
  }

  /** The fault of an entry that is not acceptable: its type before its value, the name before the scope. */
  ghost predicate FaultOf(r: Requested, e: OrderError, patterns: seq<string>, isAddress: string -> bool, glob: Glob) {
    var kind, val := Lower(Trim(r.kind)), Lower(Trim(r.value));
    match e
    case NoIdentifiers => false
    case UnsupportedKind(k) => k == kind && kind != "" && kind != "dns"
    case EmptyValue => kind in {"", "dns"} && val == ""
    case BadName(_) => kind in {"", "dns"} && val != "" && !IsHostName(val, isAddress)
    case OutsideScope(v) =>
      v == val && kind in {"", "dns"} && IsHostName(val, isAddress) && !DomainAllowed(patterns, val, glob)
  }

  lemma EmptyIsNoHost(isAddress: string -> bool)
    ensures !IsHostName("", isAddress)
  {
    HostCheckExact("", isAddress);
    hide IsHostName;
    if !isAddress("") {
      assert LabelsCheck([""]).Some? by {
        assert "" in [""] && !IsLabel("");
      }
    }
  }

  lemma IdentifierCheckExact(r: Requested, patterns: seq<string>, isAddress: string -> bool, glob: Glob)
    ensures var c := IdentifierCheck(r, patterns, isAddress, glob);
            && (c.Ok? <==> Acceptable(r, patterns, isAddress, glob))
            && (c.Ok? ==> c.value == Lower(Trim(r.value)))
            && (c.Err? ==> FaultOf(r, c.error, patterns, isAddress, glob))
            && (c.Err? && c.error.BadName? ==> HostCheck(Lower(Trim(r.value)), isAddress) == Some(c.error.e))
  {
    hide HostCheck, IsHostName, DomainAllowed, Lower, Trim;
    EmptyIsNoHost(isAddress);
    HostCheckExact(Lower(Trim(r.value)), isAddress);
  }

  /** The entry at `k` is the first that is not acceptable, and this is its fault. */
  ghost predicate FirstFault(rs: seq<Requested>, k: nat, e: OrderError, patterns: seq<string>,
      isAddress: string -> bool, glob: Glob) {
    && k < |rs| && FaultOf(rs[k], e, patterns, isAddress, glob)
    && forall j :: 0 <= j < k ==> Acceptable(rs[j], patterns, isAddress, glob)
  }

  lemma FaultFurtherOn(rs: seq<Requested>, k: nat, e: OrderError, patterns: seq<string>, isAddress: string -> bool,
      glob: Glob)
    requires rs != [] && Acceptable(rs[0], patterns, isAddress, glob)
    requires FirstFault(rs[1..], k, e, patterns, isAddress, glob)
    ensures FirstFault(rs, k + 1, e, patterns, isAddress, glob)
  {
    hide Acceptable, FaultOf;
    forall j | 0 <= j < k + 1
      ensures Acceptable(rs[j], patterns, isAddress, glob)
    {
      assert j > 0 ==> rs[j] == rs[1..][j - 1];
    }
  }

  ghost predicate AllAcceptable(rs: seq<Requested>, patterns: seq<string>, isAddress: string -> bool, glob: Glob) {
    forall k :: 0 <= k < |rs| ==> Acceptable(rs[k], patterns, isAddress, glob)
  }

  lemma AllButFirst(rs: seq<Requested>, patterns: seq<string>, isAddress: string -> bool, glob: Glob)
    requires rs != []
    ensures AllAcceptable(rs, patterns, isAddress, glob)
       <==> Acceptable(rs[0], patterns, isAddress, glob) && AllAcceptable(rs[1..], patterns, isAddress, glob)
  {
    hide Acceptable;
    assert forall k :: 0 < k < |rs| ==> rs[k] == rs[1..][k - 1];
    assert forall k :: 0 <= k < |rs[1..]| ==> rs[1..][k] == rs[k + 1];
  }

  lemma {:induction false} IdentifiersFromExact(rs: seq<Requested>, idents: seq<string>, patterns: seq<string>,
      isAddress: string -> bool, glob: Glob)
    ensures var r := IdentifiersFrom(rs, idents, patterns, isAddress, glob);
            && (r.Ok? <==> AllAcceptable(rs, patterns, isAddress, glob))
            && (r.Err? ==> exists k: nat :: FirstFault(rs, k, r.error, patterns, isAddress, glob))
  {
    hide Acceptable, FaultOf, IdentifierCheck, AllAcceptable, FirstFault;
    if rs == [] {
      NothingToAccept(patterns, isAddress, glob);
    } else {
      IdentifierCheckExact(rs[0], patterns, isAddress, glob);
      AllButFirst(rs, patterns, isAddress, glob);
      var c := IdentifierCheck(rs[0], patterns, isAddress, glob);
      if c.Err? {
        FaultAtOnce(rs, c.error, patterns, isAddress, glob);
      } else {
        IdentifiersFromExact(rs[1..], idents + [c.value], patterns, isAddress, glob);
        var r := IdentifiersFrom(rs, idents, patterns, isAddress, glob);
        if r.Err? {
          var k: nat :| FirstFault(rs[1..], k, r.error, patterns, isAddress, glob);
          FaultFurtherOn(rs, k, r.error, patterns, isAddress, glob);
        }
      }
    }
  }

  lemma NothingToAccept(patterns: seq<string>, isAddress: string -> bool, glob: Glob)
    ensures AllAcceptable([], patterns, isAddress, glob)
  {
  }

  lemma FaultAtOnce(rs: seq<Requested>, e: OrderError, patterns: seq<string>, isAddress: string -> bool, glob: Glob)
    requires rs != [] && FaultOf(rs[0], e, patterns, isAddress, glob)
    ensures FirstFault(rs, 0, e, patterns, isAddress, glob)
  {
    hide FaultOf;
  }

  /**
   * An order is accepted exactly if it names something and every entry is acceptable; otherwise the error
   * is the fault of the first entry that is not.
   */
  lemma OrderIdentifiersExact(rs: seq<Requested>, patterns: seq<string>, isAddress: string -> bool, glob: Glob)
    ensures var r := OrderIdentifiers(rs, patterns, isAddress, glob);
            && (r.Ok? <==> rs != [] && AllAcceptable(rs, patterns, isAddress, glob))
            && (r.Err? ==> if rs == [] then r.error == NoIdentifiers
                           else exists k: nat :: FirstFault(rs, k, r.error, patterns, isAddress, glob))
  {
    hide AllAcceptable, FirstFault, IdentifiersFrom;
    IdentifiersFromExact(rs, [], patterns, isAddress, glob);
  }

  /** The loop of NewOrder. */
  method CollectIdentifiers(rs: seq<Requested>, patterns: seq<string>, isAddress: string -> bool, glob: Glob)
      returns (r: Result<seq<string>, OrderError>)
    ensures r == OrderIdentifiers(rs, patterns, isAddress, glob)
    ensures r.Ok? <==> rs != [] && AllAcceptable(rs, patterns, isAddress, glob)
    ensures r.Err? ==> if rs == [] then r.error == NoIdentifiers
                       else exists k: nat :: FirstFault(rs, k, r.error, patterns, isAddress, glob)
    ensures r.Ok? ==> |r.value| == |rs| && forall k :: 0 <= k < |rs| ==> r.value[k] == Lower(Trim(rs[k].value))
  {
    hide IdentifierCheck, AllAcceptable, FirstFault, Granted;
    OrderIdentifiersExact(rs, patterns, isAddress, glob);
    OrderedAsRequested(rs, patterns, isAddress, glob);
    if rs == [] {
      return Err(NoIdentifiers);
    }
    var idents := [];
    var i := 0;
    while i < |rs|
      invariant 0 <= i <= |rs|
      invariant IdentifiersFrom(rs, [], patterns, isAddress, glob)
             == IdentifiersFrom(rs[i..], idents, patterns, isAddress, glob)
    {
      assert rs[i..][0] == rs[i] && rs[i..][1..] == rs[i + 1..];
      match IdentifierCheck(rs[i], patterns, isAddress, glob) {
        case Err(e) => return Err(e);
        case Ok(v) => idents := idents + [v];
      }
      i := i + 1;
    }
    return Ok(idents);
  }

  /** `v` is the canonical form of what was requested, and the credential admits it. */
  ghost predicate Granted(r: Requested, v: string, patterns: seq<string>, isAddress: string -> bool, glob: Glob) {
    v == Lower(Trim(r.value)) && AdmittedName(v, patterns, isAddress, glob)
  }

  lemma CheckedIsGranted(r: Requested, patterns: seq<string>, isAddress: string -> bool, glob: Glob)
    requires IdentifierCheck(r, patterns, isAddress, glob).Ok?
    ensures Granted(r, IdentifierCheck(r, patterns, isAddress, glob).value, patterns, isAddress, glob)
  {
    hide IdentifierCheck, AdmittedName, Lower, Trim;
    IdentifierCheckExact(r, patterns, isAddress, glob);
  }

  /** Every accepted identifier is an admitted host name, in the order it was requested. */
  lemma {:induction false} IdentifiersAreGranted(rs: seq<Requested>, idents: seq<string>, patterns: seq<string>,
      isAddress: string -> bool, glob: Glob)
    requires IdentifiersFrom(rs, idents, patterns, isAddress, glob).Ok?
    ensures var vs := IdentifiersFrom(rs, idents, patterns, isAddress, glob).value;
            && |vs| == |idents| + |rs|
            && (forall k :: 0 <= k < |idents| ==> vs[k] == idents[k])
            && (forall k :: |idents| <= k < |vs| ==> Granted(rs[k - |idents|], vs[k], patterns, isAddress, glob))
  {
    hide Granted, IdentifierCheck, Lower, Trim;
    if rs != [] {
      CheckedIsGranted(rs[0], patterns, isAddress, glob);
      var n := |idents|;
      var longer := idents + [IdentifierCheck(rs[0], patterns, isAddress, glob).value];
      IdentifiersAreGranted(rs[1..], longer, patterns, isAddress, glob);
      var vs := IdentifiersFrom(rs, idents, patterns, isAddress, glob).value;
      assert vs[n] == longer[n];
      assert forall k :: 0 <= k < n ==> longer[k] == idents[k];
      forall k | n < k < |vs|
        ensures Granted(rs[k - n], vs[k], patterns, isAddress, glob)
      {
        assert Granted(rs[1..][k - (n + 1)], vs[k], patterns, isAddress, glob);
      }
    }
  }

  lemma OrderedAsRequested(rs: seq<Requested>, patterns: seq<string>, isAddress: string -> bool, glob: Glob)
    ensures var r := OrderIdentifiers(rs, patterns, isAddress, glob);
            r.Ok? ==> |r.value| == |rs| && forall k :: 0 <= k < |rs| ==> r.value[k] == Lower(Trim(rs[k].value))
  {
    hide IdentifiersFrom, AdmittedName, Lower, Trim;
    if OrderIdentifiers(rs, patterns, isAddress, glob).Ok? {
      IdentifiersAreGranted(rs, [], patterns, isAddress, glob);
      var vs := OrderIdentifiers(rs, patterns, isAddress, glob).value;
      forall k | 0 <= k < |rs|
        ensures vs[k] == Lower(Trim(rs[k].value))
      {
        assert Granted(rs[k - 0], vs[k], patterns, isAddress, glob);
      }
    }
  }

  // ---------- the certificate of an order ----------

  /** The names a CSR asks for; `attributes` are the subject fields other than the common name. */
  datatype Csr = Csr(sans: SanSet, commonName: string, attributes: seq<string>)

  datatype CsrError = NonDnsNames | NameMismatch | BadCommonName

  function LowerSet(names: seq<string>): set<string> {
    set n | n in names :: Lower(n)
  }

  /** The checks of Finalize on the CSR; the value is the common name the certificate will carry. */
  function CsrCheck(idents: seq<string>, csr: Csr): Result<string, CsrError> {
    var cn := Lower(Trim(csr.commonName));
    if csr.sans.ips != [] || csr.sans.emails != [] || csr.sans.uris != [] then Err(NonDnsNames)
    else if ElementsOf(idents) != LowerSet(csr.sans.dns) then Err(NameMismatch)
    else if cn != "" && cn !in ElementsOf(idents) then Err(BadCommonName)
    else Ok(if cn == "" && idents != [] then idents[0] else cn)
  }

  /** The CSR asks for exactly the order's names, as DNS names in any case, and for nothing of another kind. */
  ghost predicate SameNames(idents: seq<string>, csr: Csr) {
    && csr.sans.ips == [] && csr.sans.emails == [] && csr.sans.uris == []
    && (forall n :: n in csr.sans.dns ==> Lower(n) in idents)
    && (forall v :: v in idents ==> exists n :: n in csr.sans.dns && Lower(n) == v)
  }

  /** A common name is optional; one that is given must be one of the order's names. */
  lemma CsrCheckExact(idents: seq<string>, csr: Csr)
    ensures var cn, r := Lower(Trim(csr.commonName)), CsrCheck(idents, csr);
            && (r.Ok? <==> SameNames(idents, csr) && (cn == "" || cn in idents))
            && (r.Ok? && cn != "" ==> r.value == cn)
            && (r.Ok? && cn == "" && idents != [] ==> r.value == idents[0])
            && (r == Err(NonDnsNames) <==> csr.sans.ips != [] || csr.sans.emails != [] || csr.sans.uris != [])
            && (r == Err(BadCommonName) <==> SameNames(idents, csr) && cn != "" && cn !in idents)
  {
    hide Lower, Trim;
    var want, got := ElementsOf(idents), LowerSet(csr.sans.dns);
    assert forall n :: n in csr.sans.dns ==> Lower(n) in got;
    assert forall v :: v in idents <==> v in want;
    if want == got {
      assert forall v :: v in got ==> exists n :: n in csr.sans.dns && Lower(n) == v;
    } else if exists v :: v in got && v !in want {
      var v :| v in got && v !in want;
      assert exists n :: n in csr.sans.dns && Lower(n) == v;
    }
  }

  /** sameStringSet: compare sizes, then look every key up. */
  method SameStringSet(a: set<string>, b: set<string>) returns (same: bool)
    ensures same <==> a == b
  {
    if |a| != |b| {
      return false;
    }
    var rest := a;
    while rest != {}
      invariant rest <= a && a - rest <= b
      decreases |rest|
    {
      var k :| k in rest;
      if k !in b {
        return false;
      }
      rest := rest - {k};
    }
    assert a - rest == a;
    SubsetOfSameSize(a, b);
    return true;
  }

  lemma SubsetOfSameSize<T>(a: set<T>, b: set<T>)
    requires a <= b && |a| == |b|
    ensures a == b
  {
    assert b == a + (b - a);
    assert |b - a| == 0;
  }

  method CheckCsrNames(idents: seq<string>, csr: Csr) returns (r: Result<string, CsrError>)
    ensures r == CsrCheck(idents, csr)
    ensures r.Ok? <==>
              && SameNames(idents, csr)
              && (Lower(Trim(csr.commonName)) == "" || Lower(Trim(csr.commonName)) in idents)
  {
    hide SameNames, Lower, Trim;
    CsrCheckExact(idents, csr);
    if |csr.sans.ips| > 0 || |csr.sans.emails| > 0 || |csr.sans.uris| > 0 {
      return Err(NonDnsNames);
    }
    var want: set<string> := {};
    for i := 0 to |idents|
      invariant want == ElementsOf(idents[..i])
    {
      want := want + {idents[i]};
      assert idents[..i + 1] == idents[..i] + [idents[i]];
    }
    var got: set<string> := {};
    for i := 0 to |csr.sans.dns|
      invariant got == LowerSet(csr.sans.dns[..i])
    {
      got := got + {Lower(csr.sans.dns[i])};
      assert csr.sans.dns[..i + 1] == csr.sans.dns[..i] + [csr.sans.dns[i]];
    }
    assert idents[..|idents|] == idents && csr.sans.dns[..|csr.sans.dns|] == csr.sans.dns;
    var same := SameStringSet(want, got);
    if !same {
      return Err(NameMismatch);
    }
    var cn := Lower(Trim(csr.commonName));
    if cn != "" && cn !in want {
      return Err(BadCommonName);
    }
    if cn == "" && |idents| > 0 {
      cn := idents[0];
    }
    return Ok(cn);
  }

  datatype Profile = Server | Client | ServerClient | CodeSigning | Email | IntermediateCa

  function ParseProfile(s: string): Option<Profile> {
    var p := Lower(Trim(s));
    if p == "" || p == "server" then Some(Server)
    else if p == "client" then Some(Client)
    else if p == "server-client" || p == "both" || p == "server+client" || p == "serverclient" then Some(ServerClient)
    else if p == "code-signing" then Some(CodeSigning)
    else if p == "email" then Some(Profile.Email)
    else if p == "intermediate-ca" then Some(IntermediateCa)
    else None
  }

  /** The names a profile goes by, in any case and with blanks around them; there are no others. */
  lemma ProfileNames(s: string)
    ensures var p, r := Lower(Trim(s)), ParseProfile(s);
            && (r == Some(Server) <==> p in {"", "server"}) && (r == Some(Client) <==> p == "client")
            && (r == Some(ServerClient) <==> p in {"server-client", "both", "server+client", "serverclient"})
            && (r == Some(CodeSigning) <==> p == "code-signing") && (r == Some(Profile.Email) <==> p == "email")
            && (r == Some(IntermediateCa) <==> p == "intermediate-ca")
  {
    DistinctProfileNames();
    hide Lower, Trim;
  }

  lemma DistinctProfileNames()
    ensures Distinct(["", "server", "client", "server-client", "both", "server+client", "serverclient", "code-signing",
                      "email", "intermediate-ca"])
  {
    assert "client"[0] == 'c' && "code-signing"[0] == 'c' && |"client"| != |"code-signing"|;
    assert "server-client"[6] == '-' && "server+client"[6] == '+';
  }

  /** What an issued certificate names. */
  datatype Leaf = Leaf(sans: SanSet, commonName: string, attributes: seq<string>, isCa: bool)

  datatype IssueError = UnknownProfile | SubordinateNotAllowed

  /**
   * The naming part of Issue in CSR mode followed by Sign, for the parsed profile: a non-blank
   * `subjectCn` replaces the whole subject, the SANs come from the CSR, and an empty SAN list of a
   * server certificate is filled from the common name by `promote`.
   */
  function IssueNames(csr: Csr, subjectCn: string, profile: Option<Profile>, allowSubordinate: bool,
      promote: string -> Option<SanSet>):
      Result<Leaf, IssueError>
  {
    match profile
    case None => Err(UnknownProfile)
    case Some(p) =>
      if p.IntermediateCa? && !allowSubordinate then Err(SubordinateNotAllowed)
      else
        var replaced := Trim(subjectCn) != "";
        var cn := if replaced then Trim(subjectCn) else csr.commonName;
        var attributes := if replaced then [] else csr.attributes;
        var bare := csr.sans == NONE && cn != "" && (p.Server? || p.ServerClient?);
        var sans := if bare && promote(cn).Some? then promote(cn).value else csr.sans;
        Ok(Leaf(sans, cn, attributes, p.IntermediateCa?))
  }

  /**
   * What issuing puts into the certificate: the subject asked for, alone, or the CSR's where it is blank; the
   * CSR's names, or for a server certificate without any what the common name reads as; a CA only for the
   * profile intermediate-ca, and that only where it is allowed.
   */
  lemma IssueNamesExact(csr: Csr, subjectCn: string, profile: Option<Profile>, allowSubordinate: bool,
      promote: string -> Option<SanSet>)
    ensures var r := IssueNames(csr, subjectCn, profile, allowSubordinate, promote);
            && (r == Err(UnknownProfile) <==> profile == None)
            && (r == Err(SubordinateNotAllowed) <==> profile == Some(IntermediateCa) && !allowSubordinate)
            && (r.Ok? ==>
                  && (r.value.isCa <==> profile == Some(IntermediateCa))
                  && (if Trim(subjectCn) == "" then r.value.commonName == csr.commonName
                    && r.value.attributes == csr.attributes
                      else r.value.commonName == Trim(subjectCn) && r.value.attributes == [])
                  && (if && csr.sans == SanSet([], [], [], []) && r.value.commonName != ""
                         && profile in {Some(Server), Some(ServerClient)} && promote(r.value.commonName).Some?
                      then Some(r.value.sans) == promote(r.value.commonName)
                      else r.value.sans == csr.sans))
  {
    hide Trim;
  }

  /** The certificate names the order's identifiers, all of them, and nothing else of any kind. */
  ghost predicate NamesExactly(leaf: Leaf, idents: seq<string>) {
    && LowerSet(leaf.sans.dns) == ElementsOf(idents)
    && leaf.sans.ips == [] && leaf.sans.emails == [] && leaf.sans.uris == []
    && leaf.commonName in idents && leaf.attributes == []
    && !leaf.isCa
  }

  /** What every accepted identifier looks like. */
  predicate Canonical(v: string) {
    v != "" && Trimmed(v) && Lower(v) == v
  }

  lemma FinalizedNamesExact(idents: seq<string>, csr: Csr, profile: Option<Profile>, promote: string -> Option<SanSet>)
    requires idents != [] && forall v :: v in idents ==> Canonical(v)
    requires CsrCheck(idents, csr).Ok?
    requires IssueNames(csr, CsrCheck(idents, csr).value, profile, false, promote).Ok?
    ensures NamesExactly(IssueNames(csr, CsrCheck(idents, csr).value, profile, false, promote).value, idents)
  {
    hide Trim, Lower;
    var cn := CsrCheck(idents, csr).value;
    assert cn in idents;
    assert idents[0] in ElementsOf(idents);
    assert csr.sans.dns != [];
  }
}
