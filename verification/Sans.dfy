/** Subject alternative names: printing a set to text and reading it back, as renewal does. */
module Sans {
  import opened Common
  import opened Text

  /** An address by its value, however many bytes hold it; a URI by its canonical text. */
  type Ip = seq<int>
  type Uri = string

  datatype SanSet = SanSet(dns: seq<string>, ips: seq<Ip>, emails: seq<string>, uris: seq<Uri>)

  const NONE := SanSet([], [], [], [])

  /** net.ParseIP, IP.String, url.Parse and URL.String. */
  datatype Net = Net(parseIp: string -> Option<Ip>, printIp: Ip -> string, parseUri: string -> Option<Uri>,
      printUri: Uri -> string)

  datatype SanError = InvalidIp | InvalidUri

  // ---------- printing ----------

  function Tagged(tag: string, values: seq<string>): seq<string> {
    seq(|values|, i requires 0 <= i < |values| => tag + values[i])
  }

  function PrintIps(net: Net, ips: seq<Ip>): seq<string> {
    seq(|ips|, i requires 0 <= i < |ips| => net.printIp(ips[i]))
  }

  function PrintUris(net: Net, uris: seq<Uri>): seq<string> {
    seq(|uris|, i requires 0 <= i < |uris| => net.printUri(uris[i]))
  }

  function Printed(net: Net, s: SanSet): seq<string> {
    Tagged("DNS:", s.dns) + Tagged("IP:", PrintIps(net, s.ips)) + Tagged("EMAIL:", s.emails)
      + Tagged("URI:", PrintUris(net, s.uris))
  }

  method Strings(net: Net, s: SanSet) returns (out: seq<string>)
    ensures out == Printed(net, s)
  {
    out := [];
    for i := 0 to |s.dns|
      invariant out == Tagged("DNS:", s.dns[..i])
    {
      out := out + ["DNS:" + s.dns[i]];
    }
    assert s.dns[..|s.dns|] == s.dns;
    ghost var first := out;
    for i := 0 to |s.ips|
      invariant out == first + Tagged("IP:", PrintIps(net, s.ips[..i]))
    {
      out := out + ["IP:" + net.printIp(s.ips[i])];
    }
    assert s.ips[..|s.ips|] == s.ips;
    ghost var second := out;
    for i := 0 to |s.emails|
      invariant out == second + Tagged("EMAIL:", s.emails[..i])
    {
      out := out + ["EMAIL:" + s.emails[i]];
    }
    assert s.emails[..|s.emails|] == s.emails;
    ghost var third := out;
    for i := 0 to |s.uris|
      invariant out == third + Tagged("URI:", PrintUris(net, s.uris[..i]))
    {
      out := out + ["URI:" + net.printUri(s.uris[i])];
    }
    assert s.uris[..|s.uris|] == s.uris;
  }

  // ---------- splitting ----------

  predicate IsSep(c: char) {
    c in {',', '\n', '\r', ' ', '\t', ';'}
  }

  /** The six separators: comma, line feed, carriage return, blank, tab and semicolon. */
  lemma Separators(c: char)
    ensures IsSep(c) <==> c as int in {44, 10, 13, 32, 9, 59}
  {
  }

  predicate SepFree(s: string) {
    forall i :: 0 <= i < |s| ==> !IsSep(s[i])
  }

  /** The length of the run of non-separators at the front. */
  function Run(s: string): (n: nat)
    ensures n <= |s| && SepFree(s[..n]) && (n < |s| ==> IsSep(s[n]))
  {
    if s == "" || IsSep(s[0]) then 0
    else
      var n := Run(s[1..]);
      assert forall i :: 0 < i < n + 1 ==> s[i] == s[1..][i - 1];
      n + 1
  }

  /** strings.FieldsFunc: the maximal runs of non-separators. */
  function Fields(s: string): seq<string>
    decreases |s|
  {
    if s == "" then []
    else if Run(s) == 0 then Fields(s[1..])
    else [s[..Run(s)]] + Fields(s[Run(s)..])
  }

  function TrimmedParts(parts: seq<string>): seq<string> {
    if parts == [] then []
    else (if Trim(parts[0]) != "" then [Trim(parts[0])] else []) + TrimmedParts(parts[1..])
  }

  function Items(entries: seq<string>): seq<string> {
    if entries == [] then [] else TrimmedParts(Fields(entries[0])) + Items(entries[1..])
  }

  method AppendParts(before: seq<string>, parts: seq<string>) returns (out: seq<string>)
    ensures out == before + TrimmedParts(parts)
  {
    hide Trim;
    out := before;
    for j := 0 to |parts|
      invariant before + TrimmedParts(parts) == out + TrimmedParts(parts[j..])
    {
      assert parts[j..][0] == parts[j] && parts[j..][1..] == parts[j + 1..];
      var p := Trim(parts[j]);
      AppendPart(out, p, TrimmedParts(parts[j + 1..]));
      if p != "" {
        out := out + [p];
      }
    }
  }

  method SplitList(entries: seq<string>) returns (out: seq<string>)
    ensures out == Items(entries)
  {
    hide TrimmedParts, Fields;
    out := [];
    for i := 0 to |entries|
      invariant Items(entries) == out + Items(entries[i..])
    {
      assert entries[i..][0] == entries[i] && entries[i..][1..] == entries[i + 1..];
      ghost var before := out;
      out := AppendParts(out, Fields(entries[i]));
      assert before + (TrimmedParts(Fields(entries[i])) + Items(entries[i + 1..])) == out + Items(entries[i + 1..]);
    }
  }

  lemma AppendPart(out: seq<string>, p: string, rest: seq<string>)
    ensures out + ((if p != "" then [p] else []) + rest) == (if p != "" then out + [p] else out) + rest
  {
  }

  // ---------- reading ----------

  datatype San = Dns(value: string) | Address(ip: Ip) | Email(value: string) | Link(uri: Uri)

  predicate HasTag(item: string, tag: string) {
    tag <= Lower(item)
  }

  predicate Contains(s: string, sub: string) {
    sub <= s || (s != "" && Contains(s[1..], sub))
  }

  function ReadIp(net: Net, v: string): Result<San, SanError> {
    match net.parseIp(v)
    case None => Err(InvalidIp)
    case Some(ip) => Ok(Address(ip))
  }

  function ReadUri(net: Net, v: string): Result<San, SanError> {
    match net.parseUri(v)
    case None => Err(InvalidUri)
    case Some(u) => Ok(Link(u))
  }

  /** One entry: a tag decides its kind, without one it is inferred. */
  function ReadItem(net: Net, item: string): Result<San, SanError> {
    if HasTag(item, "dns:") then Ok(Dns(Trim(item[4..])))
    else if HasTag(item, "ip:") then ReadIp(net, Trim(item[3..]))
    else if HasTag(item, "email:") then Ok(Email(Trim(item[6..])))
    else if HasTag(item, "uri:") then ReadUri(net, Trim(item[4..]))
    else if net.parseIp(item).Some? then ReadIp(net, item)
    else if Contains(item, "@") then Ok(Email(item))
    else if Contains(item, "://") then ReadUri(net, item)
    else Ok(Dns(item))
  }

  lemma TagExact(item: string, tag: string)
    ensures HasTag(item, tag) <==> |tag| <= |item| && Lower(item[..|tag|]) == tag
  {
    if |tag| <= |item| {
      assert Lower(item[..|tag|]) == Lower(item)[..|tag|];
    }
  }

  predicate PartAt(x: string, whole: string, i: nat) {
    i + |x| <= |whole| && whole[i..i + |x|] == x
  }

  /** `sub` stands somewhere in `s`. */
  ghost predicate Occurs(s: string, sub: string) {
    exists i: nat :: PartAt(sub, s, i)
  }

  lemma {:induction false} ContainsExact(s: string, sub: string)
    ensures Contains(s, sub) <==> Occurs(s, sub)
  {
    if sub <= s {
      assert PartAt(sub, s, 0);
    } else if s != "" {
      ContainsExact(s[1..], sub);
      forall i: nat | PartAt(sub, s[1..], i)
        ensures Occurs(s, sub)
      {
        assert PartAt(sub, s, i + 1);
      }
      forall i: nat | PartAt(sub, s, i)
        ensures Occurs(s[1..], sub)
      {
        assert i > 0 && PartAt(sub, s[1..], i - 1);
      }
    }
  }

  lemma OccursOne(s: string, c: char)
    ensures Occurs(s, [c]) <==> c in s
  {
    forall i: nat | PartAt([c], s, i)
      ensures c in s
    {
      assert s[i] == c;
    }
    if i :| 0 <= i < |s| && s[i] == c {
      assert PartAt([c], s, i);
    }
  }

  /** What follows a tag, trimmed. */
  ghost function Behind(item: string, n: nat): string
    requires n <= |item|
  {
    Trim(item[n..])
  }

  /** How an entry with a tag is read; the tag counts in any case of letters. */
  lemma ReadByTag(net: Net, item: string)
    ensures HasTag(item, "dns:") ==> |item| >= 4 && ReadItem(net, item) == Ok(Dns(Behind(item, 4)))
    ensures HasTag(item, "email:") ==> |item| >= 6 && ReadItem(net, item) == Ok(Email(Behind(item, 6)))
    ensures HasTag(item, "ip:") ==>
              && |item| >= 3
              && ReadItem(net, item) == match net.parseIp(Behind(item, 3)) case Some(a) => Ok(Address(a)) case None =>
                Err(InvalidIp)
    ensures HasTag(item, "uri:") ==>
              && |item| >= 4
              && ReadItem(net, item) == match net.parseUri(Behind(item, 4)) case Some(u) => Ok(Link(u)) case None =>
                Err(InvalidUri)
  {
    hide Trim, Contains;
    assert "dns:"[0] != "email:"[0] && "dns:"[0] != "ip:"[0] && "dns:"[0] != "uri:"[0];
    assert "email:"[0] != "ip:"[0] && "email:"[0] != "uri:"[0] && "ip:"[0] != "uri:"[0];
  }

  /**
   * How an entry without a tag is read: an address if it is one, else an e-mail if it holds an "@", else a
   * URI if it holds "://", else a DNS name.
   */
  lemma ReadByLook(net: Net, item: string)
    requires !HasTag(item, "dns:") && !HasTag(item, "ip:") && !HasTag(item, "email:") && !HasTag(item, "uri:")
    ensures var r, address := ReadItem(net, item), net.parseIp(item);
            && (address.Some? ==> r == Ok(Address(address.value)))
            && (address.None? && '@' in item ==> r == Ok(Email(item)))
            && (address.None? && '@' !in item && Occurs(item, "://") ==>
                  r == match net.parseUri(item) case Some(u) => Ok(Link(u)) case None => Err(InvalidUri))
            && (address.None? && '@' !in item && !Occurs(item, "://") ==> r == Ok(Dns(item)))
  {
    hide Contains, HasTag, Occurs;
    ContainsExact(item, "@");
    ContainsExact(item, "://");
    OccursOne(item, '@');
  }

  function Added(s: SanSet, x: San): SanSet {
    match x
    case Dns(v) => s.(dns := s.dns + [v])
    case Address(ip) => s.(ips := s.ips + [ip])
    case Email(v) => s.(emails := s.emails + [v])
    case Link(u) => s.(uris := s.uris + [u])
  }

  function ReadFrom(net: Net, items: seq<string>, s: SanSet): Result<SanSet, SanError> {
    if items == [] then Ok(s)
    else
      match ReadItem(net, items[0])
      case Err(e) => Err(e)
      case Ok(x) => ReadFrom(net, items[1..], Added(s, x))
  }

  function Parsed(net: Net, entries: seq<string>): Result<SanSet, SanError> {
    ReadFrom(net, Items(entries), NONE)
  }

  method ParseSans(net: Net, entries: seq<string>) returns (r: Result<SanSet, SanError>)
    ensures r == Parsed(net, entries)
  {
    hide Trim, Items, Added;
    var items := SplitList(entries);
    var s := NONE;
    for i := 0 to |items|
      invariant ReadFrom(net, items, NONE) == ReadFrom(net, items[i..], s)
    {
      assert items[i..][0] == items[i] && items[i..][1..] == items[i + 1..];
      match ReadItem(net, items[i]) {
        case Err(e) => return Err(e);
        case Ok(x) => s := Added(s, x);
      }
    }
    return Ok(s);
  }

  // ---------- the round trip ----------

  /** Splitting and trimming leave the value alone. */
  predicate Clean(v: string) {
    SepFree(v) && Trimmed(v)
  }

  lemma FieldsOfOne(s: string)
    requires s != "" && SepFree(s)
    ensures Fields(s) == [s]
  {
    assert Run(s) == |s|;
    assert s[..|s|] == s && s[|s|..] == "";
  }

  lemma CleanTrims(e: string)
    requires Clean(e)
    ensures Trim(e) == e && SepFree(e)
  {
  }

  lemma PartsOfClean(e: string)
    requires e != "" && Clean(e)
    ensures TrimmedParts(Fields(e)) == [e]
  {
    hide Fields, Trim;
    CleanTrims(e);
    FieldsOfOne(e);
    assert TrimmedParts([e][1..]) == [];
  }

  lemma {:induction false} ItemsOfClean(entries: seq<string>)
    requires forall e :: e in entries ==> e != "" && Clean(e)
    ensures Items(entries) == entries
  {
    hide Fields, TrimmedParts, Clean;
    if entries != [] {
      assert entries[0] in entries;
      PartsOfClean(entries[0]);
      assert forall e :: e in entries[1..] ==> e in entries;
      ItemsOfClean(entries[1..]);
    }
  }

  lemma {:induction false} FieldsAreSepFree(s: string)
    ensures forall f :: f in Fields(s) ==> SepFree(f)
    decreases |s|
  {
    if s != "" {
      FieldsAreSepFree(if Run(s) == 0 then s[1..] else s[Run(s)..]);
    }
  }

  lemma TrimKeepsSepFree(s: string)
    requires SepFree(s)
    ensures Clean(Trim(s))
  {
    forall i | 0 <= i < |Trim(s)|
      ensures !IsSep(Trim(s)[i])
    {
      assert Trim(s)[i] in s;
    }
  }

  lemma {:induction false} TrimmedPartsAreClean(parts: seq<string>)
    requires forall p :: p in parts ==> SepFree(p)
    ensures forall p :: p in TrimmedParts(parts) ==> Clean(p)
  {
    hide Trim;
    if parts != [] {
      assert parts[0] in parts;
      TrimKeepsSepFree(parts[0]);
      TrimmedPartsAreClean(parts[1..]);
    }
  }

  lemma {:induction false} ItemsAreClean(entries: seq<string>)
    ensures forall p :: p in Items(entries) ==> Clean(p)
  {
    if entries != [] {
      FieldsAreSepFree(entries[0]);
      TrimmedPartsAreClean(Fields(entries[0]));
      ItemsAreClean(entries[1..]);
    }
  }

  ghost predicate CleanNames(s: SanSet) {
    (forall v :: v in s.dns ==> Clean(v)) && (forall v :: v in s.emails ==> Clean(v))
  }

  lemma RestIsClean(item: string, n: nat)
    requires Clean(item) && n <= |item|
    ensures Clean(Trim(item[n..]))
  {
    TrimKeepsSepFree(item[n..]);
  }

  lemma ReadItemIsClean(net: Net, item: string)
    requires Clean(item) && ReadItem(net, item).Ok?
    ensures ReadItem(net, item).value.Dns? ==> Clean(ReadItem(net, item).value.value)
    ensures ReadItem(net, item).value.Email? ==> Clean(ReadItem(net, item).value.value)
  {
    hide Clean, Trim;
    if HasTag(item, "dns:") {
      RestIsClean(item, 4);
    } else if HasTag(item, "email:") {
      RestIsClean(item, 6);
    }
  }

  lemma {:induction false} ReadIsClean(net: Net, items: seq<string>, s: SanSet)
    requires CleanNames(s) && ReadFrom(net, items, s).Ok? && forall p :: p in items ==> Clean(p)
    ensures CleanNames(ReadFrom(net, items, s).value)
  {
    hide Clean, ReadItem;
    if items != [] {
      assert items[0] in items;
      ReadItemIsClean(net, items[0]);
      ReadIsClean(net, items[1..], Added(s, ReadItem(net, items[0]).value));
    }
  }

  lemma {:induction false} ReadParts(net: Net, a: seq<string>, b: seq<string>, s: SanSet)
    ensures ReadFrom(net, a + b, s)
         == match ReadFrom(net, a, s) case Err(e) => Err(e) case Ok(t) => ReadFrom(net, b, t)
  {
    hide ReadItem, Added;
    if a == [] {
      assert a + b == b;
    } else {
      assert (a + b)[0] == a[0] && (a + b)[1..] == a[1..] + b;
      if ReadItem(net, a[0]).Ok? {
        ReadParts(net, a[1..], b, Added(s, ReadItem(net, a[0]).value));
      }
    }
  }

  lemma TagIsClean(tag: string, v: string)
    requires Clean(v) && tag in {"DNS:", "IP:", "EMAIL:", "URI:"}
    ensures Clean(tag + v) && tag + v != ""
  {
    var item := tag + v;
    forall i | 0 <= i < |item|
      ensures !IsSep(item[i])
    {
      assert i >= |tag| ==> item[i] == v[i - |tag|];
    }
    assert item[0] == tag[0];
    assert item[|item| - 1] == if v == "" then ':' else v[|v| - 1];
  }

  /** A tagged clean value is read back as its own kind. */
  lemma ReadTagged(net: Net, v: string)
    requires Clean(v)
    ensures ReadItem(net, "DNS:" + v) == Result<San, SanError>.Ok(Dns(v))
    ensures ReadItem(net, "IP:" + v) == ReadIp(net, v)
    ensures ReadItem(net, "EMAIL:" + v) == Result<San, SanError>.Ok(Email(v))
    ensures ReadItem(net, "URI:" + v) == ReadUri(net, v)
  {
    hide HasTag, Trim, Clean, Contains;
    CleanTrims(v);
    TagLower(v);
    var d, i, e, u := "DNS:" + v, "IP:" + v, "EMAIL:" + v, "URI:" + v;
    assert d[4..] == v && i[3..] == v && e[6..] == v && u[4..] == v;
  }

  lemma TagPrefix(tag: string, low: string, v: string)
    requires |tag| == |low| && forall i :: 0 <= i < |tag| ==> LowerChar(tag[i]) == low[i]
    ensures HasTag(tag + v, low)
  {
    var item := Lower(tag + v);
    forall i | 0 <= i < |low|
      ensures item[i] == low[i]
    {
      assert (tag + v)[i] == tag[i];
    }
  }

  lemma OtherTag(item: string, tag: string)
    requires item != "" && tag != "" && LowerChar(item[0]) != tag[0]
    ensures !HasTag(item, tag)
  {
  }

  lemma TagLower(v: string)
    ensures HasTag("DNS:" + v, "dns:")
    ensures HasTag("IP:" + v, "ip:") && !HasTag("IP:" + v, "dns:")
    ensures HasTag("EMAIL:" + v, "email:") && !HasTag("EMAIL:" + v, "dns:") && !HasTag("EMAIL:" + v, "ip:")
    ensures HasTag("URI:" + v, "uri:") && !HasTag("URI:" + v, "dns:") && !HasTag("URI:" + v, "ip:")
      && !HasTag("URI:" + v, "email:")
  {
    hide HasTag;
    TagPrefix("DNS:", "dns:", v);
    TagPrefix("IP:", "ip:", v);
    TagPrefix("EMAIL:", "email:", v);
    TagPrefix("URI:", "uri:", v);
    OtherTag("IP:" + v, "dns:");
    OtherTag("EMAIL:" + v, "dns:");
    OtherTag("EMAIL:" + v, "ip:");
    OtherTag("URI:" + v, "dns:");
    OtherTag("URI:" + v, "ip:");
    OtherTag("URI:" + v, "email:");
  }

  /** A stretch of the text, not the whole of it. */
  predicate ProperPart(x: string, whole: string) {
    |x| < |whole| && exists i :: 0 <= i <= |whole| - |x| && PartAt(x, whole, i)
  }

  /** No shorter stretch of the printed URI is read as the same URI. */
  ghost predicate Irreducible(net: Net, u: Uri) {
    forall x: string :: ProperPart(x, net.printUri(u)) ==> net.parseUri(x) != Some(u)
  }

  /** On the members of this set the library reads back what it prints; addresses are printed cleanly. */
  ghost predicate Faithful(net: Net, s: SanSet) {
    && (forall ip :: ip in s.ips ==> Clean(net.printIp(ip)) && net.parseIp(net.printIp(ip)) == Some(ip))
    && (forall u :: u in s.uris ==> net.parseUri(net.printUri(u)) == Some(u) && Irreducible(net, u))
  }

  /** All that is printed as it is holds no separator and no space at its ends. */
  ghost predicate CleanSet(net: Net, s: SanSet) {
    CleanNames(s) && forall u :: u in s.uris ==> Clean(net.printUri(u))
  }

  lemma {:induction false} ReadDns(net: Net, vs: seq<string>, s: SanSet)
    requires forall v :: v in vs ==> Clean(v)
    ensures ReadFrom(net, Tagged("DNS:", vs), s) == Ok(s.(dns := s.dns + vs))
  {
    hide Clean, ReadItem;
    if vs == [] {
      assert s.dns + vs == s.dns;
    } else {
      assert vs[0] in vs;
      ReadTagged(net, vs[0]);
      assert Tagged("DNS:", vs)[1..] == Tagged("DNS:", vs[1..]);
      ReadDns(net, vs[1..], Added(s, Dns(vs[0])));
      assert s.dns + [vs[0]] + vs[1..] == s.dns + vs;
    }
  }

  lemma {:induction false} ReadEmails(net: Net, vs: seq<string>, s: SanSet)
    requires forall v :: v in vs ==> Clean(v)
    ensures ReadFrom(net, Tagged("EMAIL:", vs), s) == Ok(s.(emails := s.emails + vs))
  {
    hide Clean, ReadItem;
    if vs == [] {
      assert s.emails + vs == s.emails;
    } else {
      assert vs[0] in vs;
      ReadTagged(net, vs[0]);
      assert Tagged("EMAIL:", vs)[1..] == Tagged("EMAIL:", vs[1..]);
      ReadEmails(net, vs[1..], Added(s, Email(vs[0])));
      assert s.emails + [vs[0]] + vs[1..] == s.emails + vs;
    }
  }

  lemma {:induction false} ReadIps(net: Net, ips: seq<Ip>, s: SanSet)
    requires forall ip :: ip in ips ==> Clean(net.printIp(ip)) && net.parseIp(net.printIp(ip)) == Some(ip)
    ensures ReadFrom(net, Tagged("IP:", PrintIps(net, ips)), s) == Ok(s.(ips := s.ips + ips))
  {
    hide Clean, ReadItem;
    if ips == [] {
      assert s.ips + ips == s.ips;
    } else {
      assert ips[0] in ips;
      ReadTagged(net, net.printIp(ips[0]));
      assert Tagged("IP:", PrintIps(net, ips))[1..] == Tagged("IP:", PrintIps(net, ips[1..]));
      ReadIps(net, ips[1..], Added(s, Address(ips[0])));
      assert s.ips + [ips[0]] + ips[1..] == s.ips + ips;
    }
  }

  lemma {:induction false} ReadUris(net: Net, uris: seq<Uri>, s: SanSet)
    requires forall u :: u in uris ==> Clean(net.printUri(u)) && net.parseUri(net.printUri(u)) == Some(u)
    ensures ReadFrom(net, Tagged("URI:", PrintUris(net, uris)), s) == Ok(s.(uris := s.uris + uris))
  {
    hide Clean, ReadItem;
    if uris == [] {
      assert s.uris + uris == s.uris;
    } else {
      assert uris[0] in uris;
      ReadTagged(net, net.printUri(uris[0]));
      assert Tagged("URI:", PrintUris(net, uris))[1..] == Tagged("URI:", PrintUris(net, uris[1..]));
      ReadUris(net, uris[1..], Added(s, Link(uris[0])));
      assert s.uris + [uris[0]] + uris[1..] == s.uris + uris;
    }
  }

  lemma TaggedAreClean(tag: string, vs: seq<string>)
    requires tag in {"DNS:", "IP:", "EMAIL:", "URI:"} && forall v :: v in vs ==> Clean(v)
    ensures forall e :: e in Tagged(tag, vs) ==> e != "" && Clean(e)
  {
    hide Clean;
    forall e | e in Tagged(tag, vs)
      ensures e != "" && Clean(e)
    {
      var i :| 0 <= i < |vs| && e == tag + vs[i];
      assert vs[i] in vs;
      TagIsClean(tag, vs[i]);
    }
  }

  lemma ReadsBack(net: Net, s: SanSet)
    requires Faithful(net, s) && CleanSet(net, s)
    ensures ReadFrom(net, Printed(net, s), NONE) == Ok(s)
  {
    hide Clean, Tagged, PrintIps, PrintUris, ReadFrom, Irreducible;
    var front := Tagged("DNS:", s.dns) + Tagged("IP:", PrintIps(net, s.ips)) + Tagged("EMAIL:", s.emails);
    ReadNames(net, s);
    ReadUris(net, s.uris, SanSet(s.dns, s.ips, s.emails, []));
    assert [] + s.uris == s.uris;
    ReadParts(net, front, Tagged("URI:", PrintUris(net, s.uris)), NONE);
  }

  lemma PrintedAreClean(net: Net, s: SanSet)
    requires Faithful(net, s) && CleanSet(net, s)
    ensures forall e :: e in Printed(net, s) ==> e != "" && Clean(e)
  {
    hide Clean, Tagged, Irreducible;
    TaggedAreClean("DNS:", s.dns);
    TaggedAreClean("IP:", PrintIps(net, s.ips));
    TaggedAreClean("EMAIL:", s.emails);
    TaggedAreClean("URI:", PrintUris(net, s.uris));
  }

  // ---------- what a printed entry is cut into ----------

  lemma {:induction false} ItemsOfParts(a: seq<string>, b: seq<string>)
    ensures Items(a + b) == Items(a) + Items(b)
  {
    hide TrimmedParts, Fields;
    if a == [] {
      assert a + b == b;
    } else {
      assert (a + b)[0] == a[0] && (a + b)[1..] == a[1..] + b;
      ItemsOfParts(a[1..], b);
    }
  }

  function Size(s: SanSet): nat {
    |s.dns| + |s.ips| + |s.emails| + |s.uris|
  }

  /** Reading adds one member for every item, and never drops a URI. */
  lemma {:induction false} ReadSize(net: Net, items: seq<string>, s: SanSet)
    requires ReadFrom(net, items, s).Ok?
    ensures Size(ReadFrom(net, items, s).value) == Size(s) + |items|
    ensures s.uris <= ReadFrom(net, items, s).value.uris
  {
    hide ReadItem;
    if items != [] {
      ReadSize(net, items[1..], Added(s, ReadItem(net, items[0]).value));
    }
  }

  lemma TrimIsPart(v: string)
    ensures exists i :: 0 <= i <= |v| - |Trim(v)| && PartAt(Trim(v), v, i)
  {
    var l := TrimLeft(v);
    assert PartAt(Trim(v), v, |v| - |l|);
  }

  /** The items of a printed URI: the first still carries the tag, and its value is a stretch of the URI's text. */
  function ItemsOf(e: string): seq<string> {
    TrimmedParts(Fields(e))
  }

  lemma TaggedRun(v: string)
    ensures Run("URI:" + v) >= 4
  {
    var e := "URI:" + v;
    assert !IsSep(e[0]) && !IsSep(e[1]) && !IsSep(e[2]) && !IsSep(e[3]);
  }

  lemma {:induction false} TrimRightStops(s: string, n: nat)
    requires 0 < n <= |s| && !IsSpace(s[n - 1])
    ensures n <= |TrimRight(s)|
  {
    if |s| > n && IsSpace(s[|s| - 1]) {
      TrimRightStops(s[..|s| - 1], n);
    }
  }

  lemma FieldsHead(e: string)
    requires Run(e) > 0
    ensures Fields(e) != [] && Fields(e)[0] == e[..Run(e)]
  {
  }

  lemma TrimOfSolid(s: string)
    requires s != "" && !IsSpace(s[0])
    ensures Trim(s) == TrimRight(s)
  {
  }

  /** It starts with the whole tag, and is a prefix of the entry. */
  lemma FirstItem(v: string) returns (m: nat)
    ensures m <= |v| && ItemsOf("URI:" + v) != [] && ItemsOf("URI:" + v)[0] == "URI:" + v[..m]
  {
    hide Trim, Fields;
    var e := "URI:" + v;
    TaggedRun(v);
    var field := e[..Run(e)];
    FieldsHead(e);
    assert field[0] == 'U' && field[3] == ':';
    TrimRightStops(field, 4);
    TrimOfSolid(field);
    var t := TrimRight(field);
    m := |t| - 4;
    assert t == field[..|t|] == e[..|t|] == "URI:" + v[..m];
  }

  /** What the first item of a printed URI is read as: a clean stretch of the printed text. */
  lemma FirstItemReads(net: Net, v: string) returns (x: string)
    ensures ItemsOf("URI:" + v) != [] && ReadItem(net, ItemsOf("URI:" + v)[0]) == ReadUri(net, x)
    ensures Clean(x) && (x == v || ProperPart(x, v))
  {
    var m := FirstItem(v);
    var e := "URI:" + v;
    ItemsAreClean([e]);
    assert Items([e]) == ItemsOf(e) + Items([e][1..]);
    var item := ItemsOf(e)[0];
    assert item in Items([e]);
    x := Trim(v[..m]);
    ReadUriItem(net, v[..m]);
    RestIsClean(item, 4);
    assert item[4..] == v[..m];
    TrimIsPart(v[..m]);
    PartOfPrefix(x, v, m);
  }

  lemma ReadUriItem(net: Net, v: string)
    ensures ReadItem(net, "URI:" + v) == ReadUri(net, Trim(v))
  {
    hide HasTag, Trim, Contains;
    TagLower(v);
    assert ("URI:" + v)[4..] == v;
  }

  lemma PartOfPrefix(x: string, v: string, m: nat)
    requires m <= |v| && exists i :: 0 <= i <= m - |x| && PartAt(x, v[..m], i)
    ensures x == v || ProperPart(x, v)
  {
    var i :| 0 <= i <= m - |x| && PartAt(x, v[..m], i);
    assert PartAt(x, v, i);
    if |x| == |v| {
      assert v[0..|x|] == v;
    }
  }

  lemma {:induction false} ItemsPerEntry(net: Net, uris: seq<Uri>)
    ensures |Items(Tagged("URI:", PrintUris(net, uris)))| >= |uris|
  {
    hide TrimmedParts, Fields;
    if uris != [] {
      var d := Tagged("URI:", PrintUris(net, uris));
      assert d[1..] == Tagged("URI:", PrintUris(net, uris[1..]));
      var m := FirstItem(net.printUri(uris[0]));
      assert ItemsOf(d[0]) == TrimmedParts(Fields(d[0]));
      ItemsPerEntry(net, uris[1..]);
    }
  }

  /** If every printed URI gave one item and they are read back, each was printed cleanly. */
  lemma {:induction false} UrisReadBackAreClean(net: Net, uris: seq<Uri>, s: SanSet)
    requires forall u :: u in uris ==> Irreducible(net, u)
    requires var items := Items(Tagged("URI:", PrintUris(net, uris)));
             |items| == |uris| && ReadFrom(net, items, s) == Ok(s.(uris := s.uris + uris))
    ensures forall u :: u in uris ==> Clean(net.printUri(u))
  {
    hide TrimmedParts, Fields, Clean, ReadItem, Irreducible, ProperPart;
    if uris != [] {
      var d := Tagged("URI:", PrintUris(net, uris));
      var v := net.printUri(uris[0]);
      assert d[0] == "URI:" + v && d[1..] == Tagged("URI:", PrintUris(net, uris[1..]));
      var x := FirstItemReads(net, v);
      ItemsPerEntry(net, uris[1..]);
      assert Items(d) == ItemsOf(d[0]) + Items(d[1..]);
      assert |ItemsOf(d[0])| == 1;
      var items := Items(d);
      assert items[0] == ItemsOf(d[0])[0] && items[1..] == Items(d[1..]);
      assert uris[0] in uris;
      HeadUri(net, v, x, items[0], items[1..], uris, s);
      UrisReadBackAreClean(net, uris[1..], s.(uris := s.uris + [uris[0]]));
    }
  }

  lemma ReadHead(net: Net, x: string, item: string, rest: seq<string>, s: SanSet, t: SanSet)
    requires ReadItem(net, item) == ReadUri(net, x) && ReadFrom(net, [item] + rest, s) == Ok(t)
    ensures net.parseUri(x).Some? && ReadFrom(net, rest, s.(uris := s.uris + [net.parseUri(x).value])) == Ok(t)
    ensures s.uris + [net.parseUri(x).value] <= t.uris
  {
    hide ReadItem;
    assert ([item] + rest)[1..] == rest;
    ReadSize(net, rest, s.(uris := s.uris + [net.parseUri(x).value]));
  }

  lemma SameHead<T>(s: seq<T>, w: T, us: seq<T>)
    requires us != [] && s + [w] <= s + us
    ensures w == us[0] && (s + [us[0]]) + us[1..] == s + us
  {
    assert (s + [w])[|s|] == (s + us)[|s|];
  }

  /** The first URI read is the first of the set, so its text was not cut. */
  lemma HeadUri(net: Net, v: string, x: string, item: string, rest: seq<string>, uris: seq<Uri>, s: SanSet)
    requires uris != [] && v == net.printUri(uris[0]) && Irreducible(net, uris[0])
    requires Clean(x) && (x == v || ProperPart(x, v)) && ReadItem(net, item) == ReadUri(net, x)
    requires ReadFrom(net, [item] + rest, s) == Ok(s.(uris := s.uris + uris))
    ensures Clean(v)
    ensures ReadFrom(net, rest, s.(uris := s.uris + [uris[0]])) == Ok(s.(uris := (s.uris + [uris[0]]) + uris[1..]))
  {
    hide Clean, ReadItem, ReadFrom, ProperPart;
    ReadHead(net, x, item, rest, s, s.(uris := s.uris + uris));
    SameHead(s.uris, net.parseUri(x).value, uris);
  }

  /** Reading the printed set back leaves nothing that could have been cut. */
  lemma ReadBackIsClean(net: Net, s: SanSet)
    requires Faithful(net, s) && Parsed(net, Printed(net, s)) == Ok(s)
    ensures CleanSet(net, s)
  {
    hide Clean, Items, ReadFrom, Irreducible, PrintIps, PrintUris, Tagged;
    ItemsAreClean(Printed(net, s));
    ReadIsClean(net, Items(Printed(net, s)), NONE);
    var a, b, c := Tagged("DNS:", s.dns), Tagged("IP:", PrintIps(net, s.ips)), Tagged("EMAIL:", s.emails);
    var d := Tagged("URI:", PrintUris(net, s.uris));
    TaggedAreClean("DNS:", s.dns);
    PrintIpsClean(net, s);
    TaggedAreClean("IP:", PrintIps(net, s.ips));
    TaggedAreClean("EMAIL:", s.emails);
    ItemsOfClean(a + b + c);
    ItemsOfParts(a + b + c, d);
    ReadSize(net, Items(Printed(net, s)), NONE);
    ReadParts(net, a + b + c, Items(d), NONE);
    ReadNames(net, s);
    Sizes(net, s);
    var t := SanSet(s.dns, s.ips, s.emails, []);
    assert t.uris + s.uris == s.uris;
    UrisReadBackAreClean(net, s.uris, t);
  }

  lemma PrintIpsClean(net: Net, s: SanSet)
    requires Faithful(net, s)
    ensures forall v :: v in PrintIps(net, s.ips) ==> Clean(v)
  {
    hide Clean, Irreducible;
  }

  lemma Sizes(net: Net, s: SanSet)
    ensures |Tagged("DNS:", s.dns) + Tagged("IP:", PrintIps(net, s.ips)) + Tagged("EMAIL:", s.emails)|
      == |s.dns| + |s.ips| + |s.emails|
  {
  }

  lemma ReadNames(net: Net, s: SanSet)
    requires Faithful(net, s) && CleanNames(s)
    ensures ReadFrom(net, Tagged("DNS:", s.dns) + Tagged("IP:", PrintIps(net, s.ips)) + Tagged("EMAIL:", s.emails),
      NONE)
         == Ok(SanSet(s.dns, s.ips, s.emails, []))
  {
    hide Clean, Tagged, PrintIps, ReadFrom, Irreducible;
    var a, b, c := Tagged("DNS:", s.dns), Tagged("IP:", PrintIps(net, s.ips)), Tagged("EMAIL:", s.emails);
    ReadDns(net, s.dns, NONE);
    assert [] + s.dns == s.dns && [] + s.ips == s.ips && [] + s.emails == s.emails;
    ReadIps(net, s.ips, SanSet(s.dns, [], [], []));
    ReadEmails(net, s.emails, SanSet(s.dns, s.ips, [], []));
    ReadParts(net, a + b, c, NONE);
    ReadParts(net, a, b, NONE);
  }

  /**
   * Reading the printed set gives the same set, in the same order of every kind, exactly when no DNS
   * value, no e-mail value and no printed URI holds a list separator or starts or ends with white space.
   * Empty values survive.
   */
  lemma RoundTripIff(net: Net, s: SanSet)
    requires Faithful(net, s)
    ensures Parsed(net, Printed(net, s)) == Ok(s) <==> CleanSet(net, s)
  {
    hide Clean, Items, Printed, ReadFrom, Faithful;
    if CleanSet(net, s) {
      PrintedAreClean(net, s);
      ItemsOfClean(Printed(net, s));
      ReadsBack(net, s);
    }
    if Parsed(net, Printed(net, s)) == Ok(s) {
      ReadBackIsClean(net, s);
    }
  }

  /** A value without any list separator can still be changed: a vertical tab at its end is trimmed. */
  lemma TrailingSpaceIsLost(net: Net)
    ensures SepFree("a\U{0B}")
    ensures var s := SanSet(["a\U{0B}"], [], [], []); Parsed(net, Printed(net, s)) != Ok(s)
  {
    VerticalTab();
    hide Printed, ReadFrom, Items, Clean, SepFree;
    var s := SanSet(["a\U{0B}"], [], [], []);
    assert "a\U{0B}" in s.dns;
    RoundTripIff(net, s);
  }

  lemma VerticalTab()
    ensures SepFree("a\U{0B}") && !Clean("a\U{0B}")
  {
    assert IsSpace("a\U{0B}"[1]);
  }

  /** A URI printed with a comma is cut there, so renewal does not carry it over. */
  lemma UriWithCommaIsCut(net: Net, u: Uri, w: Uri, x: string, y: string)
    requires net.printUri(u) == x + "," + y && Clean(x) && Clean(y) && y != ""
    requires net.parseUri(x) == Some(w) && ReadItem(net, y) == Result<San, SanError>.Ok(Dns(y))
    ensures Parsed(net, Printed(net, SanSet([], [], [], [u]))) == Ok(SanSet([y], [], [], [w]))
  {
    var line := "URI:" + net.printUri(u);
    var head := "URI:" + x;
    assert Printed(net, SanSet([], [], [], [u])) == [line];
    TagIsClean("URI:", x);
    assert line == head + "," + y;
    CutAtComma(head, y, line);
    ReadTagged(net, x);
    ReadTwo(net, head, y, w);
  }

  lemma ReadTwo(net: Net, head: string, y: string, w: Uri)
    requires ReadItem(net, head) == Result<San, SanError>.Ok(Link(w))
      && ReadItem(net, y) == Result<San, SanError>.Ok(Dns(y))
    ensures ReadFrom(net, [head, y], NONE) == Ok(SanSet([y], [], [], [w]))
  {
    hide ReadItem;
    var t1, t2 := SanSet([], [], [], [w]), SanSet([y], [], [], [w]);
    assert Added(NONE, Link(w)) == t1 && Added(t1, Dns(y)) == t2;
    assert [head, y][1..] == [y] && [y][1..] == [];
    assert ReadFrom(net, [y], t1) == ReadFrom(net, [], t2);
  }

  lemma CutAtComma(a: string, b: string, line: string)
    requires a != "" && b != "" && Clean(a) && Clean(b) && line == a + "," + b
    ensures Items([line]) == [a, b]
  {
    hide Trim, Fields;
    CleanTrims(a);
    CleanTrims(b);
    FieldsOfTwo(a, b, line);
    assert Items([line][1..]) == [];
    assert [a, b][1..] == [b] && [b][1..] == [];
    assert TrimmedParts([b]) == [b];
    assert TrimmedParts([a, b]) == [a] + [b];
  }

  lemma FieldsOfTwo(a: string, b: string, line: string)
    requires a != "" && b != "" && SepFree(a) && SepFree(b) && line == a + "," + b
    ensures Fields(line) == [a, b]
  {
    assert Run(line) == |a| by {
      assert line[|a|] == ',' && forall i :: 0 <= i < |a| ==> line[i] == a[i];
    }
    assert line[..|a|] == a && line[|a|..][0] == ',' && line[|a|..][1..] == b;
    assert Run(line[|a|..]) == 0;
    FieldsOfOne(b);
  }
}
