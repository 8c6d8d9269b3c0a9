/**
 * The sealed envelope of a secret version: its byte layout, sealing and opening over ideal primitives,
 * and the text that binds it to its position.
 */
module Envelope {
  import opened Common
  import opened Text
  import opened Numerals

  type byte = b: int | 0 <= b < 256

  type Bytes = seq<byte>

  const PREFIX := "pqenc:v1:"
  const ALG: byte := 1

  const SALT_SIZE := 32
  const KEM_CT_SIZE := 1088
  const X25519_SIZE := 32
  const NONCE_SIZE := 12
  const DEK_SIZE := 32
  const TAG_SIZE := 16
  const WRAPPED_SIZE := DEK_SIZE + TAG_SIZE
  const HEADER_SIZE := 1 + SALT_SIZE + KEM_CT_SIZE + X25519_SIZE + NONCE_SIZE + WRAPPED_SIZE

  // ---------- layout ----------

  datatype Fields = Fields(salt: Bytes, kemCt: Bytes, ephemeral: Bytes, wrapNonce: Bytes, wrapped: Bytes,
      payloadNonce: Bytes, payload: Bytes)

  predicate Sized(f: Fields) {
    && |f.salt| == SALT_SIZE && |f.kemCt| == KEM_CT_SIZE && |f.ephemeral| == X25519_SIZE
    && |f.wrapNonce| == NONCE_SIZE && |f.wrapped| == WRAPPED_SIZE && |f.payloadNonce| == NONCE_SIZE
  }

  function Serialize(f: Fields): Bytes {
    [ALG] + f.salt + f.kemCt + f.ephemeral + f.wrapNonce + f.wrapped + f.payloadNonce + f.payload
  }

  datatype OpenError = NotAnEnvelope | NotBase64 | TooShort | UnsupportedAlgorithm | BadCiphertext | BadEphemeralKey
      | UnwrapFailed | DecryptFailed

  /** `Panic` is a slice out of bounds. */
  datatype Outcome<T> = Done(value: T) | Failed(error: OpenError) | Panic

  /** Open's reading of the raw bytes; only the header's length is checked before the slicing. */
  function Parse(raw: Bytes): Outcome<Fields> {
    if |raw| < HEADER_SIZE then Failed(TooShort)
    else if raw[0] != ALG then Failed(UnsupportedAlgorithm)
    else if |raw| < HEADER_SIZE + NONCE_SIZE then Panic
    else
      Done(Fields(raw[1..33], raw[33..1121], raw[1121..1153], raw[1153..1165], raw[1165..1213], raw[1213..1225],
        raw[1225..]))
  }

  lemma LayoutParsesBack(f: Fields)
    requires Sized(f)
    ensures Parse(Serialize(f)) == Done(f)
  {
    var a := [ALG] + f.salt;
    var b := a + f.kemCt;
    var c := b + f.ephemeral;
    var d := c + f.wrapNonce;
    var e := d + f.wrapped;
    var g := e + f.payloadNonce;
    var raw := g + f.payload;
    assert raw == Serialize(f) && |g| == 1225 && |e| == 1213 && |d| == 1165 && |c| == 1153 && |b| == 1121 && |a| == 33;
    assert raw[..1225] == g && raw[1225..] == f.payload;
    assert g[..1213] == e && g[1213..] == f.payloadNonce;
    assert e[..1165] == d && e[1165..] == f.wrapped;
    assert d[..1153] == c && d[1153..] == f.wrapNonce;
    assert c[..1121] == b && c[1121..] == f.ephemeral;
    assert b[..33] == a && b[33..] == f.kemCt && a[1..] == f.salt;
    assert raw[1213..1225] == g[1213..] && raw[1165..1213] == e[1165..] && raw[1153..1165] == d[1153..];
    assert raw[1121..1153] == c[1121..] && raw[33..1121] == b[33..] && raw[1..33] == a[1..];
  }

  /** Nothing of the raw bytes is lost in parsing. */
  lemma ParsedBytesAreAll(raw: Bytes)
    requires Parse(raw).Done?
    ensures Sized(Parse(raw).value) && Serialize(Parse(raw).value) == raw
  {
  }

  // ---------- ideal primitives ----------

  datatype Kem = Kem(shared: Bytes, ct: Bytes)

  /**
   * The vault's key pair and the primitives it uses: ML-KEM, X25519, HKDF, AES-256-GCM and unpadded
   * URL-safe base64. Seeds stand for the random choices of key generation and encapsulation.
   */
  datatype Crypto = Crypto(
    encapsulate: Bytes -> Kem,
    decapsulate: Bytes -> Option<Bytes>,
    ephemeralPublic: Bytes -> Bytes,
    ephemeralShared: Bytes -> Bytes,
    vaultShared: Bytes -> Option<Bytes>,
    deriveKey: (Bytes, Bytes) -> Bytes,
    seal: (Bytes, Bytes, Bytes, string) -> Bytes,
    open: (Bytes, Bytes, Bytes, string) -> Option<Bytes>,
    encode: Bytes -> string,
    decode: string -> Option<Bytes>)

  ghost predicate KeyAgreement(c: Crypto) {
    && (forall seed: Bytes :: c.decapsulate(c.encapsulate(seed).ct) == Some(c.encapsulate(seed).shared))
    && (forall seed: Bytes :: |c.encapsulate(seed).ct| == KEM_CT_SIZE)
    && (forall seed: Bytes :: c.vaultShared(c.ephemeralPublic(seed)) == Some(c.ephemeralShared(seed)))
    && (forall seed: Bytes :: |c.ephemeralPublic(seed)| == X25519_SIZE)
  }

  ghost predicate Decrypts(c: Crypto) {
    && (forall key: Bytes, nonce: Bytes, p: Bytes, aad: string :: |c.seal(key, nonce, p, aad)| == |p| + TAG_SIZE)
    && (forall key: Bytes, nonce: Bytes, p: Bytes,
      aad: string :: c.open(key, nonce, c.seal(key, nonce, p, aad), aad) == Some(p))
  }

  /** A ciphertext sealed at one position does not open at another. */
  ghost predicate Binds(c: Crypto) {
    forall key: Bytes, nonce: Bytes, p: Bytes, aad: string, other: string ::
      IsPosition(aad) && IsPosition(other) && aad != other ==>
        c.open(key, nonce, c.seal(key, nonce, p, aad), other) == None
  }

  ghost predicate Ideal(c: Crypto) {
    KeyAgreement(c) && Decrypts(c) && Binds(c) && forall raw: Bytes :: c.decode(c.encode(raw)) == Some(raw)
  }

  // ---------- sealing and opening ----------

  /** What Seal draws at random. */
  datatype Entropy = Entropy(kemSeed: Bytes, ephemeralSeed: Bytes, salt: Bytes, dek: Bytes, wrapNonce: Bytes,
      payloadNonce: Bytes)

  predicate GoodEntropy(r: Entropy) {
    |r.salt| == SALT_SIZE && |r.dek| == DEK_SIZE && |r.wrapNonce| == NONCE_SIZE && |r.payloadNonce| == NONCE_SIZE
  }

  function WrapKey(c: Crypto, kemShared: Bytes, x25519Shared: Bytes, salt: Bytes): Bytes {
    c.deriveKey(kemShared + x25519Shared, salt)
  }

  function SealedFields(c: Crypto, r: Entropy, plaintext: Bytes, aad: string): Fields {
    var kem := c.encapsulate(r.kemSeed);
    var kek := WrapKey(c, kem.shared, c.ephemeralShared(r.ephemeralSeed), r.salt);
    Fields(r.salt, kem.ct, c.ephemeralPublic(r.ephemeralSeed), r.wrapNonce, c.seal(kek, r.wrapNonce, r.dek, aad),
           r.payloadNonce, c.seal(r.dek, r.payloadNonce, plaintext, aad))
  }

  function Sealed(c: Crypto, r: Entropy, plaintext: Bytes, aad: string): string {
    PREFIX + c.encode(Serialize(SealedFields(c, r, plaintext, aad)))
  }

  function OpenedFields(c: Crypto, f: Fields, aad: string): Outcome<Bytes> {
    match c.decapsulate(f.kemCt)
    case None => Failed(BadCiphertext)
    case Some(kemShared) =>
      match c.vaultShared(f.ephemeral)
      case None => Failed(BadEphemeralKey)
      case Some(x25519Shared) =>
        match c.open(WrapKey(c, kemShared, x25519Shared, f.salt), f.wrapNonce, f.wrapped, aad)
        case None => Failed(UnwrapFailed)
        case Some(dek) =>
          match c.open(dek, f.payloadNonce, f.payload, aad)
          case None => Failed(DecryptFailed)
          case Some(plaintext) => Done(plaintext)
  }

  function Opened(c: Crypto, envelope: string, aad: string): Outcome<Bytes> {
    if !(PREFIX <= envelope) then Failed(NotAnEnvelope)
    else
      match c.decode(envelope[|PREFIX|..])
      case None => Failed(NotBase64)
      case Some(raw) =>
        match Parse(raw)
        case Failed(e) => Failed(e)
        case Panic => Panic
        case Done(f) => OpenedFields(c, f, aad)
  }

  /** Seal writes the fields into one buffer, in this order. */
  method Seal(c: Crypto, r: Entropy, plaintext: Bytes, aad: string) returns (envelope: string)
    ensures envelope == Sealed(c, r, plaintext, aad)
  {
    var kem := c.encapsulate(r.kemSeed);
    var x25519Shared := c.ephemeralShared(r.ephemeralSeed);
    var kek := WrapKey(c, kem.shared, x25519Shared, r.salt);
    var wrapped := c.seal(kek, r.wrapNonce, r.dek, aad);
    var payload := c.seal(r.dek, r.payloadNonce, plaintext, aad);
    var buf: Bytes := [ALG];
    buf := buf + r.salt;
    buf := buf + kem.ct;
    buf := buf + c.ephemeralPublic(r.ephemeralSeed);
    buf := buf + r.wrapNonce;
    buf := buf + wrapped;
    buf := buf + r.payloadNonce;
    buf := buf + payload;
    return PREFIX + c.encode(buf);
  }

  /** Open advances an offset over the raw bytes; a slice it cannot take is a panic. */
  method Open(c: Crypto, envelope: string, aad: string) returns (out: Outcome<Bytes>)
    ensures out == Opened(c, envelope, aad)
  {
    if !(PREFIX <= envelope) {
      return Failed(NotAnEnvelope);
    }
    var decoded := c.decode(envelope[|PREFIX|..]);
    if decoded.None? {
      return Failed(NotBase64);
    }
    var raw := decoded.value;
    if |raw| < HEADER_SIZE {
      return Failed(TooShort);
    }
    if raw[0] != ALG {
      return Failed(UnsupportedAlgorithm);
    }
    var off := 1;
    var salt := raw[off..off + SALT_SIZE];
    off := off + SALT_SIZE;
    var kemCt := raw[off..off + KEM_CT_SIZE];
    off := off + KEM_CT_SIZE;
    var ephemeral := raw[off..off + X25519_SIZE];
    off := off + X25519_SIZE;
    var wrapNonce := raw[off..off + NONCE_SIZE];
    off := off + NONCE_SIZE;
    var wrapped := raw[off..off + WRAPPED_SIZE];
    off := off + WRAPPED_SIZE;
    if |raw| < off + NONCE_SIZE {
      return Panic;
    }
    var payloadNonce := raw[off..off + NONCE_SIZE];
    off := off + NONCE_SIZE;
    var payload := raw[off..];
    out := OpenedFields(c, Fields(salt, kemCt, ephemeral, wrapNonce, wrapped, payloadNonce, payload), aad);
  }

  lemma SealedIsSized(c: Crypto, r: Entropy, plaintext: Bytes, aad: string)
    requires Ideal(c) && GoodEntropy(r)
    ensures Sized(SealedFields(c, r, plaintext, aad))
  {
  }

  lemma SealedDecodes(c: Crypto, r: Entropy, plaintext: Bytes, aad: string, aad': string)
    requires Ideal(c) && GoodEntropy(r)
    ensures Opened(c, Sealed(c, r, plaintext, aad), aad') == OpenedFields(c, SealedFields(c, r, plaintext, aad), aad')
  {
    hide KeyAgreement, Decrypts, Binds, SealedFields, OpenedFields, Parse, Serialize, Sized;
    var f := SealedFields(c, r, plaintext, aad);
    SealedIsSized(c, r, plaintext, aad);
    LayoutParsesBack(f);
    var envelope := Sealed(c, r, plaintext, aad);
    assert envelope[|PREFIX|..] == c.encode(Serialize(f));
  }

  /** Opening at the position it was sealed for returns the plaintext, whatever it is. */
  lemma OpenOfSeal(c: Crypto, r: Entropy, plaintext: Bytes, aad: string)
    requires Ideal(c) && GoodEntropy(r)
    ensures Opened(c, Sealed(c, r, plaintext, aad), aad) == Done(plaintext)
  {
    hide Opened, Sealed, Parse, Serialize, Sized, Binds;
    SealedDecodes(c, r, plaintext, aad, aad);
  }

  /** An envelope moved to another position never opens. */
  lemma MovedNeverOpens(c: Crypto, r: Entropy, plaintext: Bytes, aad: string, other: string)
    requires Ideal(c) && GoodEntropy(r) && IsPosition(aad) && IsPosition(other) && aad != other
    ensures Opened(c, Sealed(c, r, plaintext, aad), other) == Failed(UnwrapFailed)
  {
    hide Opened, Sealed, Parse, Serialize, Sized, Decrypts, IsPosition;
    SealedDecodes(c, r, plaintext, aad, other);
  }

  /** The header check leaves twelve lengths on which Open slices out of bounds. */
  lemma OpenPanicsIff(c: Crypto, envelope: string, aad: string)
    ensures Opened(c, envelope, aad).Panic?
       <==> && PREFIX <= envelope
            && c.decode(envelope[|PREFIX|..]).Some?
            && var raw := c.decode(envelope[|PREFIX|..]).value;
               HEADER_SIZE <= |raw| < HEADER_SIZE + NONCE_SIZE && raw[0] == ALG
  {
  }

  /** The key that unwraps an envelope's data key: from both shared secrets, ML-KEM first, and the salt. */
  ghost function UnwrapKey(c: Crypto, raw: Bytes): Bytes
    requires |raw| >= 1225 && c.decapsulate(raw[33..1121]).Some? && c.vaultShared(raw[1121..1153]).Some?
  {
    c.deriveKey(c.decapsulate(raw[33..1121]).value + c.vaultShared(raw[1121..1153]).value, raw[1..33])
  }

  /** What Open answers to text that is not a well-formed envelope, check by check. */
  lemma OpenRefusals(c: Crypto, envelope: string, aad: string)
    ensures var prefixed := |envelope| >= 9 && envelope[..9] == "pqenc:v1:";
            && (Opened(c, envelope, aad) == Failed(NotAnEnvelope) <==> !prefixed)
            && (prefixed ==>
                  && (Opened(c, envelope, aad) == Failed(NotBase64) <==> c.decode(envelope[9..]) == None)
                  && (c.decode(envelope[9..]).Some? ==>
                        var raw := c.decode(envelope[9..]).value;
                        && (Opened(c, envelope, aad) == Failed(TooShort) <==> |raw| < 1213)
                        && (Opened(c, envelope, aad) == Failed(UnsupportedAlgorithm)
                          <==> |raw| >= 1213 && raw[0] != 1)))
  {
    assert PREFIX == "pqenc:v1:" && |PREFIX| == 9;
  }

  /** Where Open finds the parts of a whole envelope, what it does with them, and what it answers. */
  lemma OpenExact(c: Crypto, raw: Bytes, envelope: string, aad: string)
    requires PREFIX <= envelope && c.decode(envelope[9..]) == Some(raw) && |raw| >= 1225 && raw[0] == 1
    ensures var r, kem, x := Opened(c, envelope, aad), c.decapsulate(raw[33..1121]), c.vaultShared(raw[1121..1153]);
            if kem.None? then r == Failed(BadCiphertext)
            else if x.None? then r == Failed(BadEphemeralKey)
            else
              match c.open(UnwrapKey(c, raw), raw[1153..1165], raw[1165..1213], aad)
              case None => r == Failed(UnwrapFailed)
              case Some(dek) =>
                match c.open(dek, raw[1213..1225], raw[1225..], aad)
                case None => r == Failed(DecryptFailed)
                case Some(plaintext) => r == Done(plaintext)
  {
    assert |PREFIX| == 9;
  }

  /** A sealed envelope cut off within twelve bytes after its header, as only a damaged row can be. */
  lemma CutEnvelopePanics(c: Crypto, r: Entropy, plaintext: Bytes, aad: string, aad': string, n: nat)
    requires Ideal(c) && GoodEntropy(r) && n < NONCE_SIZE
    ensures var raw := Serialize(SealedFields(c, r, plaintext, aad));
            HEADER_SIZE + n <= |raw| && Opened(c, PREFIX + c.encode(raw[..HEADER_SIZE + n]), aad').Panic?
  {
    hide KeyAgreement, Decrypts, Binds, SealedFields, Opened;
    SealedIsSized(c, r, plaintext, aad);
    var cut := Serialize(SealedFields(c, r, plaintext, aad))[..HEADER_SIZE + n];
    var envelope := PREFIX + c.encode(cut);
    assert envelope[|PREFIX|..] == c.encode(cut);
    OpenPanicsIff(c, envelope, aad');
  }

  /** The algorithm byte and 1212 zero bytes. */
  lemma PanicAt(c: Crypto, aad: string)
    requires Ideal(c)
    ensures Opened(c, PREFIX + c.encode([ALG] + seq(1212, i => 0)), aad).Panic?
  {
    hide KeyAgreement, Decrypts, Binds, Opened;
    var raw := [ALG] + seq(1212, i => 0);
    var envelope := PREFIX + c.encode(raw);
    assert envelope[|PREFIX|..] == c.encode(raw);
    OpenPanicsIff(c, envelope, aad);
  }

  // ---------- positions ----------

  /** aad: the text a ciphertext is bound to; the prefix is that of internal/vault. */
  function Aad(secretId: int, version: int): string {
    "goca/secret/v1" + "|" + Decimal(secretId) + "|" + Decimal(version)
  }

  /** For one: the third version of the secret 7. */
  lemma AadOfOne()
    ensures Aad(7, 3) == "goca/secret/v1|7|3"
  {
    assert Decimal(7) == "7" && Decimal(3) == "3";
  }

  predicate InRange(n: int) {
    0 <= n <= MAX_INT64
  }

  ghost predicate IsPosition(aad: string) {
    exists s, v :: InRange(s) && InRange(v) && aad == Aad(s, v)
  }

  /** Different positions have different texts. */
  lemma AadInjective(s1: int, v1: int, s2: int, v2: int)
    requires Aad(s1, v1) == Aad(s2, v2)
    ensures s1 == s2 && v1 == v2
  {
    hide Decimal, Value, Join, Split;
    DecimalReadsBack(s1);
    DecimalReadsBack(v1);
    DecimalReadsBack(s2);
    DecimalReadsBack(v2);
    AadSplits(s1, v1);
    AadSplits(s2, v2);
    var a, b := Split(Aad(s1, v1), '|'), Split(Aad(s2, v2), '|');
    assert a[1] == b[1] && a[2] == b[2];
  }

  lemma AadSplits(s: int, v: int)
    ensures Split(Aad(s, v), '|') == ["goca/secret/v1", Decimal(s), Decimal(v)]
  {
    hide Decimal, Aad, Join, Split;
    DecimalHasNoBar(s);
    DecimalHasNoBar(v);
    JoinedAad(s, v);
    SplitOfJoin(["goca/secret/v1", Decimal(s), Decimal(v)], '|');
  }

  lemma JoinedAad(s: int, v: int)
    ensures Aad(s, v) == Join(["goca/secret/v1", Decimal(s), Decimal(v)], '|')
  {
    var parts := ["goca/secret/v1", Decimal(s), Decimal(v)];
    assert parts[1..] == [Decimal(s), Decimal(v)] && parts[1..][1..] == [Decimal(v)];
    assert Join(parts[1..], '|') == Decimal(s) + "|" + Decimal(v);
  }

  // ---------- the assumptions are consistent ----------

  function Pow256(k: nat): nat {
    if k == 0 then 1 else 256 * Pow256(k - 1)
  }

  function BytesOf(n: nat, k: nat): (r: Bytes)
    ensures |r| == k
  {
    if k == 0 then [] else BytesOf(n / 256, k - 1) + [n % 256]
  }

  function NumberOf(bs: Bytes): nat {
    if bs == [] then 0 else 256 * NumberOf(bs[..|bs| - 1]) + bs[|bs| - 1]
  }

  lemma {:induction false} BytesReadBack(n: nat, k: nat)
    requires n < Pow256(k)
    ensures NumberOf(BytesOf(n, k)) == n
  {
    if k > 0 {
      BytesReadBack(n / 256, k - 1);
    }
  }

  /** A sixteen-byte tag that tells positions apart. */
  ghost function ToyTag(aad: string): (tag: Bytes)
    ensures |tag| == TAG_SIZE
  {
    if IsPosition(aad) then
      var s, v :| InRange(s) && InRange(v) && aad == Aad(s, v);
      BytesOf(s, 8) + BytesOf(v, 8)
    else BytesOf(0, TAG_SIZE)
  }

  lemma ToyTagOf(s: int, v: int)
    requires InRange(s) && InRange(v)
    ensures ToyTag(Aad(s, v)) == BytesOf(s, 8) + BytesOf(v, 8)
  {
    forall s', v' | Aad(s', v') == Aad(s, v)
      ensures s' == s && v' == v
    {
      AadInjective(s', v', s, v);
    }
  }

  lemma ToyTagInjective(a: string, b: string)
    requires IsPosition(a) && IsPosition(b) && a != b
    ensures ToyTag(a) != ToyTag(b)
  {
    var s1, v1 :| InRange(s1) && InRange(v1) && a == Aad(s1, v1);
    var s2, v2 :| InRange(s2) && InRange(v2) && b == Aad(s2, v2);
    ToyTagOf(s1, v1);
    ToyTagOf(s2, v2);
    PowersOf256();
    BytesReadBack(s1, 8);
    BytesReadBack(s2, 8);
    BytesReadBack(v1, 8);
    BytesReadBack(v2, 8);
    var x, y := ToyTag(a), ToyTag(b);
    assert x[..8] == BytesOf(s1, 8) && y[..8] == BytesOf(s2, 8) && x[8..] == BytesOf(v1, 8) && y[8..] == BytesOf(v2, 8);
  }

  lemma PowersOf256()
    ensures MAX_INT64 < Pow256(8)
  {
    assert Pow256(4) == 0x1_0000_0000;
    assert Pow256(8) == 0x1_0000_0000 * Pow256(4);
  }

  function CharsOf(raw: Bytes): string {
    seq(|raw|, i requires 0 <= i < |raw| => raw[i] as char)
  }

  function BytesOfChars(s: string): Bytes {
    seq(|s|, i requires 0 <= i < |s| => s[i] as int % 256)
  }

  ghost function ToyOpen(ct: Bytes, aad: string): Option<Bytes> {
    if |ct| >= TAG_SIZE && ct[|ct| - TAG_SIZE..] == ToyTag(aad) then Some(ct[..|ct| - TAG_SIZE]) else None
  }

  lemma ToyAead(p: Bytes, aad: string, other: string)
    ensures ToyOpen(p + ToyTag(aad), aad) == Some(p)
    ensures IsPosition(aad) && IsPosition(other) && aad != other ==> ToyOpen(p + ToyTag(aad), other) == None
  {
    var ct := p + ToyTag(aad);
    assert ct[|ct| - TAG_SIZE..] == ToyTag(aad) && ct[..|ct| - TAG_SIZE] == p;
    if IsPosition(aad) && IsPosition(other) && aad != other {
      ToyTagInjective(aad, other);
    }
  }

  ghost function Toy(): Crypto {
    Crypto(
      (seed: Bytes) => Kem([], BytesOf(0, KEM_CT_SIZE)),
      (ct: Bytes) => Some([]),
      (seed: Bytes) => BytesOf(0, X25519_SIZE),
      (seed: Bytes) => [],
      (p: Bytes) => Some([]),
      (secret: Bytes, salt: Bytes) => [],
      (key: Bytes, nonce: Bytes, p: Bytes, aad: string) => p + ToyTag(aad),
      (key: Bytes, nonce: Bytes, ct: Bytes, aad: string) => ToyOpen(ct, aad),
      (raw: Bytes) => CharsOf(raw),
      (s: string) => Some(BytesOfChars(s)))
  }

  lemma ToyDecrypts()
    ensures Decrypts(Toy())
  {
    hide ToyTag, ToyOpen;
    forall key: Bytes, nonce: Bytes, p: Bytes, aad: string
      ensures |Toy().seal(key, nonce, p, aad)| == |p| + TAG_SIZE
      ensures Toy().open(key, nonce, Toy().seal(key, nonce, p, aad), aad) == Some(p)
    {
      ToyAead(p, aad, aad);
    }
  }

  lemma ToyBinds()
    ensures Binds(Toy())
  {
    hide ToyTag, ToyOpen, IsPosition;
    forall key: Bytes, nonce: Bytes, p: Bytes, aad: string, other: string | IsPosition(aad) && IsPosition(other)
      && aad != other
      ensures Toy().open(key, nonce, Toy().seal(key, nonce, p, aad), other) == None
    {
      ToyAead(p, aad, other);
    }
  }

  lemma ToyDecodes(raw: Bytes)
    ensures Toy().decode(Toy().encode(raw)) == Some(raw)
  {
    assert BytesOfChars(CharsOf(raw)) == raw;
  }

  /** Some primitives meet all the assumptions, so what follows from them is not vacuous. */
  lemma IdealIsPossible()
    ensures exists c :: Ideal(c)
  {
    hide ToyTag, IsPosition, ToyOpen, Aad, Decrypts, Binds;
    var c := Toy();
    ToyDecrypts();
    ToyBinds();
    forall raw: Bytes
      ensures c.decode(c.encode(raw)) == Some(raw)
    {
      ToyDecodes(raw);
    }
    assert Ideal(c);
  }
}
