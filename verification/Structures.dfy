/**
 The TPM structures the stack sends and receives: public-area templates, the
 sensitive half of a creation, PCR selections and digest lists.  The writers
 are the stack's; the readers of the build-only structures are the
 selector-driven decoders a TPM applies to them.
 */
module Structures {
  import opened Basics
  import opened Bits
  import opened Constants
  import opened Marshal
  import opened Codecs

  const TPM2B: Codec<bytes> := Codec(BufferBytes, (d: bytes) => |d| <= U16_MAX, ReadTpm2b)

  lemma Tpm2bExact()
    ensures Exact(TPM2B)
  {
    forall d, post ensures Inverts(TPM2B, d, post) {
      if |d| <= U16_MAX {
        ReadTpm2bInverts(d, post);
      }
    }
    forall s ensures Canonical(TPM2B, s) {
      if ReadTpm2b(s).Parsed? {
        ReadTpm2bCanonical(s);
      }
    }
  }

  // ---------- TPMT_SYM_DEF_OBJECT ----------

  datatype SymDefObject = SymDefObject(algorithm: u16, keyBits: u16, mode: u16) {
    /** Key size and mode are ignored, and not sent, without a cipher. */
    function Normalized(): SymDefObject {
      if algorithm == ALG_NULL then SymDefObject(ALG_NULL, 0, ALG_NULL) else this
    }
  }

  const AES128_CFB := SymDefObject(ALG_AES, 128, ALG_CFB)
  const NO_CIPHER := SymDefObject(ALG_NULL, 0, ALG_NULL)

  function SymDefBytes(d: SymDefObject): bytes {
    U16Bytes(d.algorithm) +
    if d.algorithm != ALG_NULL then U16Bytes(d.keyBits) + U16Bytes(d.mode) else []
  }

  method MarshalSymDef(d: SymDefObject, out: OutBuffer)
    modifies out
    ensures out.data == old(out.data) + SymDefBytes(d)
  {
    out.MarshalU16(d.algorithm);
    if d.algorithm != ALG_NULL {
      out.MarshalU16(d.keyBits);
      out.MarshalU16(d.mode);
    }
  }

  function ReadSymDef(s: bytes): Parsed<SymDefObject> {
    var (algorithm, s) :- ReadU16(s);
    if algorithm == ALG_NULL then Parsed(NO_CIPHER, s)
    else
      var (keyBits, s) :- ReadU16(s);
      var (mode, s) :- ReadU16(s);
      Parsed(SymDefObject(algorithm, keyBits, mode), s)
  }

  const SYM_DEF: Codec<SymDefObject> :=
    Codec(SymDefBytes, (d: SymDefObject) => d == d.Normalized(), ReadSymDef)

  lemma SymDefInverts(d: SymDefObject, post: bytes)
    requires d == d.Normalized()
    ensures ReadSymDef(SymDefBytes(d) + post) == Parsed(d, post)
  {
    if d.algorithm == ALG_NULL {
      assert SymDefBytes(d) + post == U16Bytes(d.algorithm) + post;
      ReadU16Inverts(d.algorithm, post);
    } else {
      var t2 := U16Bytes(d.mode) + post;
      var t1 := U16Bytes(d.keyBits) + t2;
      assert SymDefBytes(d) + post == U16Bytes(d.algorithm) + t1;
      ReadU16Inverts(d.algorithm, t1);
      ReadU16Inverts(d.keyBits, t2);
      ReadU16Inverts(d.mode, post);
    }
  }

  lemma SymDefCanonical(s: bytes)
    requires ReadSymDef(s).Parsed?
    ensures var (d, rest) := ReadSymDef(s).Extract(); d == d.Normalized() && s == SymDefBytes(d) + rest
  {
    var (algorithm, t1) := ReadU16(s).Extract();
    assert s == U16Bytes(algorithm) + t1 by { ReadU16Canonical(s); }
    if algorithm != ALG_NULL {
      var (keyBits, t2) := ReadU16(t1).Extract();
      assert t1 == U16Bytes(keyBits) + t2 by { ReadU16Canonical(t1); }
      var (mode, t3) := ReadU16(t2).Extract();
      assert t2 == U16Bytes(mode) + t3 by { ReadU16Canonical(t2); }
    }
  }

  lemma SymDefExact()
    ensures Exact(SYM_DEF)
  {
    forall d, post ensures Inverts(SYM_DEF, d, post) {
      if d == d.Normalized() {
        SymDefInverts(d, post);
      }
    }
    forall s ensures Canonical(SYM_DEF, s) {
      if ReadSymDef(s).Parsed? {
        SymDefCanonical(s);
      }
    }
  }

  // ---------- TPMT_PUBLIC ----------

  datatype PublicParms =
    | KeyedHashParms(scheme: u16)
    | EccParms(symmetric: SymDefObject, eccScheme: u16, curve: u16, kdf: u16)
  {
    function Normalized(): PublicParms {
      if EccParms? then this.(symmetric := symmetric.Normalized()) else this
    }
  }

  datatype PublicId = KeyedHashId(digest: bytes) | EccId(x: bytes, y: bytes)

  datatype Public = Public(
    kind: u16, nameAlg: u16, attributes: u32, authPolicy: bytes,
    parameters: PublicParms, unique: PublicId)
  {
    /** The type selector names the variants in use, and every TPM2B fits. */
    predicate WellFormed() {
      |authPolicy| <= U16_MAX && BodyFits(kind, parameters, unique)
    }

    /** The type selector names the variants in use, whatever their sizes. */
    predicate Aligned() {
      Matches(kind, parameters) && (parameters.EccParms? <==> unique.EccId?)
    }

    function Normalized(): Public {
      this.(parameters := parameters.Normalized())
    }
  }

  predicate BodyFits(kind: u16, parameters: PublicParms, unique: PublicId) {
    match unique
    case KeyedHashId(d) =>
      kind == ALG_KEYEDHASH && parameters.KeyedHashParms? && |d| <= U16_MAX
    case EccId(x, y) =>
      kind == ALG_ECC && parameters.EccParms? && |x| <= U16_MAX && |y| <= U16_MAX
  }

  predicate Matches(kind: u16, parameters: PublicParms) {
    kind == if parameters.KeyedHashParms? then ALG_KEYEDHASH else ALG_ECC
  }

  function ParmsBytes(p: PublicParms): bytes {
    match p
    case KeyedHashParms(scheme) => U16Bytes(scheme)
    case EccParms(symmetric, scheme, curve, kdf) =>
      SymDefBytes(symmetric) + (U16Bytes(scheme) + (U16Bytes(curve) + U16Bytes(kdf)))
  }

  function IdBytes(u: PublicId): bytes {
    match u
    case KeyedHashId(d) => BufferBytes(d)
    case EccId(x, y) => BufferBytes(x) + BufferBytes(y)
  }

  function HeadBytes(kind: u16, nameAlg: u16, attributes: u32, authPolicy: bytes): bytes {
    U16Bytes(kind) + (U16Bytes(nameAlg) + (U32Bytes(attributes) + BufferBytes(authPolicy)))
  }

  function BodyBytes(parameters: PublicParms, unique: PublicId): bytes {
    ParmsBytes(parameters) + IdBytes(unique)
  }

  function PublicBytes(p: Public): bytes {
    HeadBytes(p.kind, p.nameAlg, p.attributes, p.authPolicy) + BodyBytes(p.parameters, p.unique)
  }

  lemma Regroup(start: bytes, a: bytes, b: bytes, c: bytes, d: bytes)
    ensures start + a + b + c + d == start + (a + (b + (c + d)))
    ensures start + a + b + c == start + (a + (b + c))
  {
  }

  method MarshalParms(p: PublicParms, out: OutBuffer)
    modifies out
    ensures out.data == old(out.data) + ParmsBytes(p)
  {
    match p {
      case KeyedHashParms(scheme) =>
        out.MarshalU16(scheme);
      case EccParms(symmetric, scheme, curve, kdf) =>
        MarshalSymDef(symmetric, out);
        out.MarshalU16(scheme);
        out.MarshalU16(curve);
        out.MarshalU16(kdf);
    }
  }

  method MarshalId(u: PublicId, out: OutBuffer)
    modifies out
    ensures out.data == old(out.data) + IdBytes(u)
  {
    match u {
      case KeyedHashId(d) =>
        var _ := out.MarshalTpm2b(d);
      case EccId(x, y) =>
        var _ := out.MarshalTpm2b(x);
        var _ := out.MarshalTpm2b(y);
    }
  }

  method MarshalPublic(p: Public, out: OutBuffer)
    modifies out
    ensures out.data == old(out.data) + PublicBytes(p)
  {
    out.MarshalU16(p.kind);
    out.MarshalU16(p.nameAlg);
    out.MarshalU32(p.attributes);
    var _ := out.MarshalTpm2b(p.authPolicy);
    Regroup(old(out.data), U16Bytes(p.kind), U16Bytes(p.nameAlg), U32Bytes(p.attributes), BufferBytes(p.authPolicy));
    MarshalParms(p.parameters, out);
    MarshalId(p.unique, out);
    Regroup(old(out.data), HeadBytes(p.kind, p.nameAlg, p.attributes, p.authPolicy),
            ParmsBytes(p.parameters), IdBytes(p.unique), []);
  }

  /** Emits TPM2B_PUBLIC: the size-prefixed public area. */
  method WrapPublic(p: Public, out: OutBuffer)
    modifies out
    ensures out.data == old(out.data) + BufferBytes(PublicBytes(p))
  {
    var inner := new OutBuffer();
    ghost var body := PublicBytes(p);
    MarshalPublic(p, inner);
    assert inner.data == [] + body == body;
    var _ := out.MarshalTpm2b(inner.data);
  }

  /** The bytes of details that follow a scheme or KDF selector: none for
      TPM_ALG_NULL, a hash algorithm and two more bytes for XOR and ECDAA, a hash
      algorithm for every other one (TPM 2.0 Library, Part 2, section 11). */
  function DetailSize(selector: u16): nat {
    if selector == ALG_NULL then 0
    else if selector == ALG_XOR || selector == ALG_ECDAA then 4
    else 2
  }

  /** TPMT_KEYEDHASH_SCHEME, TPMT_ECC_SCHEME or TPMT_KDF_SCHEME, with details. */
  function ReadDetailedScheme(s: bytes): Parsed<(u16, bytes)> {
    var (selector, s) :- ReadU16(s);
    var (details, s) :- ReadBytes(DetailSize(selector), s);
    Parsed((selector, details), s)
  }

  /** The TPM's reader of schemes; one with details is refused, because nothing
      in a template of this stack stands for them. */
  function ReadScheme(s: bytes): Parsed<u16> {
    var (scheme, s) :- ReadDetailedScheme(s);
    if scheme.1 == [] then Parsed(scheme.0, s) else Stuck(Malformed, s)
  }

  /** Two ways to take a scheme off the wire: as the TPM does, and as the stack
      writes it, which is the selector alone. */
  const SCHEME: Codec<u16> := Codec(U16Bytes, (v: u16) => v == ALG_NULL, ReadScheme)
  const SELECTOR: Codec<u16> := Codec(U16Bytes, (v: u16) => true, ReadU16)

  lemma SelectorExact()
    ensures IsSchemeCodec(SELECTOR)
  {
    forall v, post ensures Inverts(SELECTOR, v, post) {
      ReadU16Inverts(v, post);
    }
    forall s ensures Canonical(SELECTOR, s) {
      if ReadU16(s).Parsed? {
        ReadU16Canonical(s);
      }
    }
  }

  lemma SchemeExact()
    ensures IsSchemeCodec(SCHEME)
  {
    forall v, post ensures Inverts(SCHEME, v, post) {
      ReadU16Inverts(v, post);
    }
    forall s ensures Canonical(SCHEME, s) {
      if ReadScheme(s).Parsed? {
        ReadU16Canonical(s);
      }
    }
  }

  ghost predicate IsSchemeCodec(scheme: Codec<u16>) {
    Exact(scheme) && forall v: u16 :: scheme.enc(v) == U16Bytes(v)
  }

  predicate SchemesFit(fits: u16 -> bool, p: PublicParms) {
    match p
    case KeyedHashParms(scheme) => fits(scheme)
    case EccParms(_, scheme, _, kdf) => fits(scheme) && fits(kdf)
  }

  function ReadParms(scheme: bytes -> Parsed<u16>, kind: u16, s: bytes): Parsed<PublicParms> {
    if kind == ALG_KEYEDHASH then
      var (keyedHash, s) :- scheme(s);
      Parsed(KeyedHashParms(keyedHash), s)
    else if kind == ALG_ECC then
      var (symmetric, s) :- ReadSymDef(s);
      var (ecc, s) :- scheme(s);
      var (curve, s) :- ReadU16(s);
      var (kdf, s) :- scheme(s);
      Parsed(EccParms(symmetric, ecc, curve, kdf), s)
    else Stuck(Malformed, s)
  }

  function ReadId(kind: u16, s: bytes): Parsed<PublicId> {
    var (x, s) :- ReadTpm2b(s);
    if kind == ALG_ECC then
      var (y, s) :- ReadTpm2b(s);
      Parsed(EccId(x, y), s)
    else Parsed(KeyedHashId(x), s)
  }

  function ReadBody(scheme: bytes -> Parsed<u16>, kind: u16, s: bytes): Parsed<(PublicParms, PublicId)> {
    var (parameters, s) :- ReadParms(scheme, kind, s);
    var (unique, s) :- ReadId(kind, s);
    Parsed((parameters, unique), s)
  }

  function ReadHead(s: bytes): Parsed<(u16, u16, u32, bytes)> {
    var (kind, s) :- ReadU16(s);
    var (nameAlg, s) :- ReadU16(s);
    var (attributes, s) :- ReadU32(s);
    var (authPolicy, s) :- ReadTpm2b(s);
    Parsed((kind, nameAlg, attributes, authPolicy), s)
  }

  function ReadPublic(scheme: bytes -> Parsed<u16>, s: bytes): Parsed<Public> {
    var ((kind, nameAlg, attributes, authPolicy), s) :- ReadHead(s);
    var ((parameters, unique), s) :- ReadBody(scheme, kind, s);
    Parsed(Public(kind, nameAlg, attributes, authPolicy, parameters, unique), s)
  }

  function PublicCodec(scheme: Codec<u16>): Codec<Public> {
    Codec(PublicBytes,
          (p: Public) => p.WellFormed() && SchemesFit(scheme.fits, p.parameters) && p == p.Normalized(),
          (s: bytes) => ReadPublic(scheme.read, s))
  }

  /** TPMT_PUBLIC as the TPM decodes it. */
  const PUBLIC: Codec<Public> := PublicCodec(SCHEME)

  lemma HeadShape(a: bytes, b: bytes, c: bytes, d: bytes, post: bytes)
    ensures (a + (b + (c + d))) + post == a + (b + (c + (d + post)))
  {
  }

  lemma ReadParmsInverts(scheme: Codec<u16>, kind: u16, p: PublicParms, post: bytes)
    requires IsSchemeCodec(scheme)
    requires Matches(kind, p) && SchemesFit(scheme.fits, p) && p == p.Normalized()
    ensures ReadParms(scheme.read, kind, ParmsBytes(p) + post) == Parsed(p, post)
  {
    match p
    case KeyedHashParms(keyedHash) =>
      assert Inverts(scheme, keyedHash, post);
    case EccParms(symmetric, ecc, curve, kdf) =>
      var t2 := U16Bytes(kdf) + post;
      var t1 := U16Bytes(curve) + t2;
      var t0 := U16Bytes(ecc) + t1;
      HeadShape(SymDefBytes(symmetric), U16Bytes(ecc), U16Bytes(curve), U16Bytes(kdf), post);
      SymDefExact();
      assert Inverts(SYM_DEF, symmetric, t0);
      assert Inverts(scheme, ecc, t1);
      ReadU16Inverts(curve, t2);
      assert Inverts(scheme, kdf, post);
  }

  lemma SchemeStart(scheme: Codec<u16>, s: bytes)
    requires IsSchemeCodec(scheme) && scheme.read(s).Parsed?
    ensures scheme.fits(scheme.read(s).value) && s == U16Bytes(scheme.read(s).value) + scheme.read(s).rest
  {
    assert Canonical(scheme, s);
  }

  lemma ReadParmsCanonical(scheme: Codec<u16>, kind: u16, s: bytes)
    requires IsSchemeCodec(scheme) && ReadParms(scheme.read, kind, s).Parsed?
    ensures var q := ReadParms(scheme.read, kind, s);
      && s == ParmsBytes(q.value) + q.rest
      && q.value == q.value.Normalized() && SchemesFit(scheme.fits, q.value)
      && Matches(kind, q.value)
  {
    if kind == ALG_KEYEDHASH {
      SchemeStart(scheme, s);
    } else {
      var (symmetric, t0) := ReadSymDef(s).Extract();
      var (ecc, t1) := scheme.read(t0).Extract();
      var (curve, t2) := ReadU16(t1).Extract();
      var (kdf, rest) := scheme.read(t2).Extract();
      SymDefCanonical(s);
      SchemeStart(scheme, t0);
      assert t1 == U16Bytes(curve) + t2 by { ReadU16Canonical(t1); }
      SchemeStart(scheme, t2);
      HeadShape(SymDefBytes(symmetric), U16Bytes(ecc), U16Bytes(curve), U16Bytes(kdf), rest);
    }
  }

  lemma ReadIdInverts(p: Public, post: bytes)
    requires p.WellFormed()
    ensures ReadId(p.kind, IdBytes(p.unique) + post) == Parsed(p.unique, post)
  {
    match p.unique
    case KeyedHashId(d) =>
      ReadTpm2bInverts(d, post);
    case EccId(x, y) =>
      assert IdBytes(p.unique) + post == BufferBytes(x) + (BufferBytes(y) + post);
      ReadTpm2bInverts(x, BufferBytes(y) + post);
      ReadTpm2bInverts(y, post);
  }

  lemma ReadIdCanonical(kind: u16, s: bytes)
    requires ReadId(kind, s).Parsed?
    ensures var q := ReadId(kind, s);
      && s == IdBytes(q.value) + q.rest
      && (kind == ALG_ECC ==> q.value.EccId? && |q.value.x| <= U16_MAX && |q.value.y| <= U16_MAX)
      && (kind != ALG_ECC ==> q.value.KeyedHashId? && |q.value.digest| <= U16_MAX)
  {
    ReadTpm2bCanonical(s);
    if kind == ALG_ECC {
      ReadTpm2bCanonical(ReadTpm2b(s).rest);
    }
  }

  lemma ReadHeadInverts(kind: u16, nameAlg: u16, attributes: u32, authPolicy: bytes, post: bytes)
    requires |authPolicy| <= U16_MAX
    ensures ReadHead(HeadBytes(kind, nameAlg, attributes, authPolicy) + post)
         == Parsed((kind, nameAlg, attributes, authPolicy), post)
  {
    var t3 := BufferBytes(authPolicy) + post;
    var t2 := U32Bytes(attributes) + t3;
    var t1 := U16Bytes(nameAlg) + t2;
    HeadShape(U16Bytes(kind), U16Bytes(nameAlg), U32Bytes(attributes), BufferBytes(authPolicy), post);
    ReadU16Inverts(kind, t1);
    ReadU16Inverts(nameAlg, t2);
    ReadU32Inverts(attributes, t3);
    ReadTpm2bInverts(authPolicy, post);
  }

  lemma ReadHeadCanonical(s: bytes)
    requires ReadHead(s).Parsed?
    ensures var (h, rest) := ReadHead(s).Extract();
      |h.3| <= U16_MAX && s == HeadBytes(h.0, h.1, h.2, h.3) + rest
  {
    var (h, rest) := ReadHead(s).Extract();
    var t1 := ReadU16(s).rest;
    var t2 := ReadU16(t1).rest;
    var t3 := ReadU32(t2).rest;
    assert s == U16Bytes(h.0) + t1 by { ReadU16Canonical(s); }
    assert t1 == U16Bytes(h.1) + t2 by { ReadU16Canonical(t1); }
    assert t2 == U32Bytes(h.2) + t3 by { ReadU32Canonical(t2); }
    assert t3 == BufferBytes(h.3) + rest by { ReadTpm2bCanonical(t3); }
  }

  lemma ReadPublicInverts(scheme: Codec<u16>, p: Public, post: bytes)
    requires IsSchemeCodec(scheme) && PublicCodec(scheme).fits(p)
    ensures ReadPublic(scheme.read, PublicBytes(p) + post) == Parsed(p, post)
  {
    var t2 := IdBytes(p.unique) + post;
    var t1 := ParmsBytes(p.parameters) + t2;
    assert PublicBytes(p) + post == HeadBytes(p.kind, p.nameAlg, p.attributes, p.authPolicy) + t1;
    ReadHeadInverts(p.kind, p.nameAlg, p.attributes, p.authPolicy, t1);
    ReadParmsInverts(scheme, p.kind, p.parameters, t2);
    ReadIdInverts(p, post);
  }

  lemma ReadBodyCanonical(scheme: Codec<u16>, kind: u16, s: bytes)
    requires IsSchemeCodec(scheme) && ReadBody(scheme.read, kind, s).Parsed?
    ensures var ((parameters, unique), rest) := ReadBody(scheme.read, kind, s).Extract();
      && BodyFits(kind, parameters, unique) && SchemesFit(scheme.fits, parameters)
      && parameters == parameters.Normalized()
      && s == BodyBytes(parameters, unique) + rest
  {
    ReadParmsCanonical(scheme, kind, s);
    ReadIdCanonical(kind, ReadParms(scheme.read, kind, s).rest);
  }

  lemma ReadPublicCanonical(scheme: Codec<u16>, s: bytes)
    requires IsSchemeCodec(scheme) && ReadPublic(scheme.read, s).Parsed?
    ensures var q := ReadPublic(scheme.read, s);
      PublicCodec(scheme).fits(q.value) && s == PublicBytes(q.value) + q.rest
  {
    var (h, t) := ReadHead(s).Extract();
    var (body, rest) := ReadBody(scheme.read, h.0, t).Extract();
    ReadHeadCanonical(s);
    ReadBodyCanonical(scheme, h.0, t);
    PublicShape(s, Public(h.0, h.1, h.2, h.3, body.0, body.1), t, rest);
  }

  lemma PublicShape(s: bytes, p: Public, t: bytes, rest: bytes)
    requires s == HeadBytes(p.kind, p.nameAlg, p.attributes, p.authPolicy) + t
    requires t == BodyBytes(p.parameters, p.unique) + rest
    ensures s == PublicBytes(p) + rest
  {
  }

  lemma PublicCodecExact(scheme: Codec<u16>)
    requires IsSchemeCodec(scheme)
    ensures Exact(PublicCodec(scheme))
  {
    var public := PublicCodec(scheme);
    forall p, post ensures Inverts(public, p, post) {
      if public.fits(p) {
        ReadPublicInverts(scheme, p, post);
      }
    }
    forall s ensures Canonical(public, s) {
      if ReadPublic(scheme.read, s).Parsed? {
        ReadPublicCanonical(scheme, s);
      }
    }
  }

  /** The TPM's decoder and the writer are mutually inverse. */
  lemma PublicExact()
    ensures Exact(PUBLIC)
  {
    SchemeExact();
    PublicCodecExact(SCHEME);
  }

  /** A template and its normal form are the same on the wire. */
  lemma NormalizedSameBytes(p: Public)
    ensures PublicBytes(p.Normalized()) == PublicBytes(p)
    ensures p.WellFormed() <==> p.Normalized().WellFormed()
    ensures p.Normalized().Normalized() == p.Normalized()
  {
  }

  /** A template that survives the wire: its selector names the variants in use,
      its schemes are TPM_ALG_NULL and every part fits its length prefix. */
  predicate PublicFits(p: Public) {
    p.WellFormed() && SchemesFit((v: u16) => v == ALG_NULL, p.parameters) && |PublicBytes(p)| <= U16_MAX
  }

  lemma PublicFitsExactly(p: Public)
    ensures PublicFits(p) <==> Sized(PUBLIC).fits(p.Normalized())
  {
    NormalizedSameBytes(p);
  }

  /** The TPM recovers the template sent, up to the ignored fields, precisely
      when it is such a one. */
  lemma PublicFaithful(p: Public, post: bytes)
    ensures ReadSized(PUBLIC, BufferBytes(PublicBytes(p)) + post) == Parsed(p.Normalized(), post) <==> PublicFits(p)
  {
    NormalizedSameBytes(p);
    PublicFitsExactly(p);
    PublicExact();
    SizedExact(PUBLIC);
    DecodesIff(Sized(PUBLIC), p.Normalized(), post);
  }

  /** Templates that look alike on the wire are alike, whatever their schemes. */
  lemma PublicUnambiguous(p: Public, q: Public)
    requires p.WellFormed() && q.WellFormed()
    requires |PublicBytes(p)| <= U16_MAX && |PublicBytes(q)| <= U16_MAX
    requires BufferBytes(PublicBytes(p)) == BufferBytes(PublicBytes(q))
    ensures p.Normalized() == q.Normalized()
  {
    WireDetermines(p);
    WireDetermines(q);
  }

  lemma WireDetermines(p: Public)
    requires p.WellFormed() && |PublicBytes(p)| <= U16_MAX
    ensures ReadSized(PublicCodec(SELECTOR), BufferBytes(PublicBytes(p)) + []) == Parsed(p.Normalized(), [])
  {
    NormalizedSameBytes(p);
    SelectorExact();
    PublicCodecExact(SELECTOR);
    SizedInverts(PublicCodec(SELECTOR), p.Normalized(), []);
  }

  // ---------- templates that do not fit ----------

  lemma SameHead(p: Public, q: Public)
    requires |p.authPolicy| <= U16_MAX && |q.authPolicy| <= U16_MAX && PublicBytes(p) == PublicBytes(q)
    ensures p.kind == q.kind && p.nameAlg == q.nameAlg && p.attributes == q.attributes
    ensures p.authPolicy == q.authPolicy && BodyBytes(p.parameters, p.unique) == BodyBytes(q.parameters, q.unique)
  {
    ReadHeadInverts(p.kind, p.nameAlg, p.attributes, p.authPolicy, BodyBytes(p.parameters, p.unique));
    ReadHeadInverts(q.kind, q.nameAlg, q.attributes, q.authPolicy, BodyBytes(q.parameters, q.unique));
  }

  lemma SameBody(kind: u16, p: PublicParms, u: PublicId, q: PublicParms, v: PublicId)
    requires Matches(kind, p) && Matches(kind, q) && BodyBytes(p, u) == BodyBytes(q, v)
    ensures p.Normalized() == q.Normalized() && IdBytes(u) == IdBytes(v)
  {
    SelectorExact();
    assert ParmsBytes(p.Normalized()) == ParmsBytes(p) && ParmsBytes(q.Normalized()) == ParmsBytes(q);
    ReadParmsInverts(SELECTOR, kind, p.Normalized(), IdBytes(u));
    ReadParmsInverts(SELECTOR, kind, q.Normalized(), IdBytes(v));
  }

  /** Where two sized fields are read, one field too long to be written leaves
      too few bytes. */
  lemma SameId(u: PublicId, v: PublicId)
    requires (u.EccId? <==> v.EccId?) && IdBytes(u) == IdBytes(v)
    requires if v.EccId? then |v.x| <= U16_MAX && |v.y| <= U16_MAX else |v.digest| <= U16_MAX
    ensures if u.EccId? then |u.x| <= U16_MAX && |u.y| <= U16_MAX else |u.digest| <= U16_MAX
  {
    if u.EccId? {
      if |u.x| > U16_MAX || |u.y| > U16_MAX {
        var only := if |u.x| <= U16_MAX then u.x else u.y;
        ReadTpm2bInverts(v.x, BufferBytes(v.y));
        assert IdBytes(u) == BufferBytes(only);
        ReadOnly(only, v.x, v.y);
        assert false;
      }
    }
  }

  lemma ReadOnly(only: bytes, x: bytes, y: bytes)
    requires |x| <= U16_MAX && |y| <= U16_MAX
    ensures BufferBytes(only) != BufferBytes(x) + BufferBytes(y)
  {
    if |only| <= U16_MAX && BufferBytes(only) == BufferBytes(x) + BufferBytes(y) {
      ReadTpm2bInverts(only, []);
      assert BufferBytes(only) + [] == BufferBytes(only);
      ReadTpm2bInverts(x, BufferBytes(y));
      assert false;
    }
  }

  /** If the selector is right and the policy is short enough to be written, the
      bytes of a template are those of another only if it fits itself. */
  lemma SameBytesFit(p: Public, q: Public)
    requires p.Aligned() && |p.authPolicy| <= U16_MAX && PublicFits(q) && PublicBytes(p) == PublicBytes(q)
    ensures PublicFits(p)
  {
    SameHead(p, q);
    SameBody(p.kind, p.parameters, p.unique, q.parameters, q.unique);
    SameId(p.unique, q.unique);
  }

  /** Without its policy, this template is another one on the wire. */
  lemma OversizedPolicyBytes(nameAlg: u16, attributes: u32, authPolicy: bytes, start: bytes, d: bytes)
    requires |authPolicy| > U16_MAX && |start| == 14 && |d| <= 0x8000
    ensures var unique := start + U16Bytes(ALG_NULL) + BufferBytes(d);
      var p := Public(ALG_KEYEDHASH, nameAlg, attributes, authPolicy, KeyedHashParms(ALG_NULL), KeyedHashId(unique));
      var q := Public(ALG_KEYEDHASH, nameAlg, attributes, U16Bytes(|unique|) + start, KeyedHashParms(ALG_NULL),
                      KeyedHashId(d));
      PublicBytes(p) == PublicBytes(q) && PublicFits(q) && q.Normalized() == q
  {
    var unique := start + U16Bytes(ALG_NULL) + BufferBytes(d);
    var policy := U16Bytes(|unique|) + start;
    assert BufferBytes(policy) + (U16Bytes(ALG_NULL) + BufferBytes(d)) == U16Bytes(ALG_NULL) + BufferBytes(unique);
  }

  /** A sealed-data template with the HMAC scheme fits, and yet is not what the
      TPM reads: the scheme's hash algorithm is never written, so the length of
      the unique field is taken for it, and then that field is missing. */
  lemma HmacSchemeIsMisread(nameAlg: u16, post: bytes)
    ensures var p := SealedData(nameAlg).(parameters := KeyedHashParms(ALG_HMAC));
      && p.WellFormed() && |PublicBytes(p)| <= U16_MAX
      && ReadSized(PUBLIC, BufferBytes(PublicBytes(p)) + post) != Parsed(p.Normalized(), post)
      && BodyBytes(p.parameters, p.unique) == U16Bytes(ALG_HMAC) + BufferBytes([])
      && ReadDetailedScheme(BodyBytes(p.parameters, p.unique)) == Parsed((ALG_HMAC, BufferBytes([])), [])
      && ReadTpm2b([]).Stuck?
  {
    var p := SealedData(nameAlg).(parameters := KeyedHashParms(ALG_HMAC));
    PublicFaithful(p, post);
    ReadU16Inverts(ALG_HMAC, BufferBytes([]));
    ReadBytesInverts(BufferBytes([]), []);
    assert BufferBytes([]) + [] == BufferBytes([]);
  }

  const NIST_P256: u16 := 0x0003
  const STORAGE_PARENT: u32 := 0x3_0072
  const SEALED_DATA: u32 := 0x52

  function EccStorageParent(nameAlg: u16): Public {
    Public(ALG_ECC, nameAlg, STORAGE_PARENT, [], EccParms(AES128_CFB, ALG_NULL, NIST_P256, ALG_NULL), EccId([], []))
  }

  function SealedData(nameAlg: u16): Public {
    Public(ALG_KEYEDHASH, nameAlg, SEALED_DATA, [], KeyedHashParms(ALG_NULL), KeyedHashId([]))
  }

  /** The storage parent is fixedTPM, fixedParent, sensitiveDataOrigin,
      userWithAuth, restricted and decrypt, and nothing else. */
  lemma ParentAttributes(nameAlg: u16, i: nat)
    ensures HasBit(EccStorageParent(nameAlg).attributes, i) <==> i in {1, 4, 5, 6, 16, 17}
  {
    BitsOfNibble(0x3_0072, i);
    if i >= 4 {
      BitsOfNibble(0x3007, i - 4);
    }
    if i >= 8 {
      BitsOfNibble(0x300, i - 8);
    }
    if i >= 12 {
      BitsOfNibble(0x30, i - 12);
    }
    if i >= 16 {
      BitsOfNibble(0x3, i - 16);
    }
    if i >= 20 {
      NoBits(i - 20);
    }
  }

  /** Sealed data is fixedTPM, fixedParent and userWithAuth, and nothing else. */
  lemma SealedDataAttributes(nameAlg: u16, i: nat)
    ensures HasBit(SealedData(nameAlg).attributes, i) <==> i in {1, 4, 6}
  {
    BitsOfNibble(0x52, i);
    if i >= 4 {
      BitsOfNibble(0x5, i - 4);
    }
    if i >= 8 {
      NoBits(i - 8);
    }
  }

  /** Octet by octet: type, name algorithm, attributes and no policy; AES-128-CFB,
      no scheme, the curve P-256 and no KDF; an empty point. */
  lemma ParentOctets(nameAlg: u16)
    ensures PublicBytes(EccStorageParent(nameAlg))
         == ([0x00, 0x23] + (U16Bytes(nameAlg) + ([0x00, 0x03, 0x00, 0x72] + [0x00, 0x00])))
            + (([0x00, 0x06, 0x00, 0x80, 0x00, 0x43] + ([0x00, 0x10] + ([0x00, 0x03] + [0x00, 0x10])))
               + ([0x00, 0x00] + [0x00, 0x00]))
  {
    assert U32Bytes(0x3_0072) == [0x00, 0x03, 0x00, 0x72] && BufferBytes([]) == [0x00, 0x00];
    assert SymDefBytes(AES128_CFB) == [0x00, 0x06, 0x00, 0x80, 0x00, 0x43];
    assert U16Bytes(0x0023) == [0x00, 0x23] && U16Bytes(0x0010) == [0x00, 0x10] && U16Bytes(3) == [0x00, 0x03];
  }

  /** The same for sealed data: no scheme and an empty unique field. */
  lemma SealedDataOctets(nameAlg: u16)
    ensures PublicBytes(SealedData(nameAlg))
         == ([0x00, 0x08] + (U16Bytes(nameAlg) + ([0x00, 0x00, 0x00, 0x52] + [0x00, 0x00])))
            + ([0x00, 0x10] + [0x00, 0x00])
  {
    assert U32Bytes(0x52) == [0x00, 0x00, 0x00, 0x52] && BufferBytes([]) == [0x00, 0x00];
    assert U16Bytes(0x0008) == [0x00, 0x08] && U16Bytes(0x0010) == [0x00, 0x10];
  }

  /** The TPM decodes both stock templates as they stand. */
  lemma TemplatesFaithful(nameAlg: u16, post: bytes)
    ensures var p := EccStorageParent(nameAlg);
      ReadSized(PUBLIC, BufferBytes(PublicBytes(p)) + post) == Parsed(p, post)
    ensures var p := SealedData(nameAlg);
      ReadSized(PUBLIC, BufferBytes(PublicBytes(p)) + post) == Parsed(p, post)
  {
    TemplatesFit(nameAlg);
    PublicFaithful(EccStorageParent(nameAlg), post);
    PublicFaithful(SealedData(nameAlg), post);
  }

  lemma TemplatesFit(nameAlg: u16)
    ensures PublicFits(EccStorageParent(nameAlg)) && EccStorageParent(nameAlg).Normalized() == EccStorageParent(nameAlg)
    ensures PublicFits(SealedData(nameAlg)) && SealedData(nameAlg).Normalized() == SealedData(nameAlg)
  {
  }

  // ---------- TPMS_SENSITIVE_CREATE ----------

  datatype SensitiveCreate = SensitiveCreate(userAuth: bytes, data: bytes)

  function SensitiveBytes(v: SensitiveCreate): bytes {
    BufferBytes(v.userAuth) + BufferBytes(v.data)
  }

  /** Emits TPM2B_SENSITIVE_CREATE. */
  method WrapSensitive(v: SensitiveCreate, out: OutBuffer)
    modifies out
    ensures out.data == old(out.data) + BufferBytes(SensitiveBytes(v))
  {
    var inner := new OutBuffer();
    var _ := inner.MarshalTpm2b(v.userAuth);
    var _ := inner.MarshalTpm2b(v.data);
    var _ := out.MarshalTpm2b(inner.data);
  }

  function ReadSensitive(s: bytes): Parsed<SensitiveCreate> {
    var (userAuth, s) :- ReadTpm2b(s);
    var (data, s) :- ReadTpm2b(s);
    Parsed(SensitiveCreate(userAuth, data), s)
  }

  const SENSITIVE: Codec<SensitiveCreate> :=
    Codec(SensitiveBytes,
          (v: SensitiveCreate) => |v.userAuth| <= U16_MAX && |v.data| <= U16_MAX,
          ReadSensitive)

  lemma SensitiveExact()
    ensures Exact(SENSITIVE)
  {
    forall v, post ensures Inverts(SENSITIVE, v, post) {
      if |v.userAuth| <= U16_MAX && |v.data| <= U16_MAX {
        assert SensitiveBytes(v) + post == BufferBytes(v.userAuth) + (BufferBytes(v.data) + post);
        ReadTpm2bInverts(v.userAuth, BufferBytes(v.data) + post);
        ReadTpm2bInverts(v.data, post);
      }
    }
    forall s ensures Canonical(SENSITIVE, s) {
      if ReadSensitive(s).Parsed? {
        ReadTpm2bCanonical(s);
        ReadTpm2bCanonical(ReadTpm2b(s).rest);
      }
    }
  }

  // ---------- TPML_PCR_SELECTION ----------

  datatype PcrSelection = PcrSelection(hash: u16, select: bytes)

  /** The bitmap length is cast to one byte. */
  function SelectionBytes(p: PcrSelection): bytes {
    U16Bytes(p.hash) + ([|p.select| % 0x100] + p.select)
  }

  method MarshalSelection(p: PcrSelection, out: OutBuffer)
    modifies out
    ensures out.data == old(out.data) + SelectionBytes(p)
  {
    out.MarshalU16(p.hash);
    out.Push(|p.select| % 0x100);
    out.Extend(p.select);
  }

  function ReadSelection(s: bytes): Parsed<PcrSelection> {
    var (hash, s) :- ReadU16(s);
    var (size, s) :- ReadU8(s);
    var (select, s) :- ReadBytes(size, s);
    Parsed(PcrSelection(hash, select), s)
  }

  method UnmarshalSelection(r: Reader) returns (v: Result<PcrSelection>)
    requires r.Valid()
    modifies r
    ensures r.Yields(ReadSelection(old(r.Unread())), v)
  {
    var hash :- r.U16();
    var size :- r.U8();
    var select :- r.Take(size);
    return Success(PcrSelection(hash, select));
  }

  const SELECTION: Codec<PcrSelection> :=
    Codec(SelectionBytes, (p: PcrSelection) => |p.select| < 0x100, ReadSelection)

  lemma SelectionExact()
    ensures Exact(SELECTION)
  {
    forall p, post ensures Inverts(SELECTION, p, post) {
      if |p.select| < 0x100 {
        var t := p.select + post;
        assert SelectionBytes(p) + post == U16Bytes(p.hash) + ([|p.select|] + t);
        ReadU16Inverts(p.hash, [|p.select|] + t);
        ReadBytesInverts([|p.select|], t);
        ReadBytesInverts(p.select, post);
      }
    }
    forall s ensures Canonical(SELECTION, s) {
      if ReadSelection(s).Parsed? {
        ReadU16Canonical(s);
      }
    }
  }

  const SELECTION_LIST: Codec<seq<PcrSelection>> := Counted(SELECTION, 0xFFFF_FFFF)

  method MarshalSelectionList(list: seq<PcrSelection>, out: OutBuffer)
    modifies out
    ensures out.data == old(out.data) + CountedBytes(SelectionBytes, list)
  {
    out.MarshalU32(LowU32(|list|));
    ghost var start := out.data;
    ghost var goal := start + ListBytes(SelectionBytes, list);
    for i := 0 to |list|
      invariant goal == out.data + ListBytes(SelectionBytes, list[i..])
    {
      ListBytesStep(SelectionBytes, list, i, out.data);
      MarshalSelection(list[i], out);
    }
    assert out.data + [] == out.data;
  }

  /** Three bytes at least for each selection that is stored. */
  lemma SelectionsBound(n: nat, s: bytes)
    ensures 3 * Pushed(ReadSelection, n, s) + |ReadMany(ReadSelection, n, s).rest| <= |s|
  {
    PushedBound(ReadSelection, n, s, 3);
  }

  /** Two bytes at least for each digest that is stored. */
  lemma DigestsBound(n: nat, s: bytes)
    ensures 2 * Pushed(ReadTpm2b, n, s) + |ReadMany(ReadTpm2b, n, s).rest| <= |s|
  {
    PushedBound(ReadTpm2b, n, s, 2);
  }

  /** Reads a counted list; pushed is how many entries were stored before the
      end or the first failure. */
  method UnmarshalSelectionList(r: Reader) returns (v: Result<seq<PcrSelection>>, ghost pushed: nat)
    requires r.Valid()
    modifies r
    ensures r.Yields(ReadCounted(ReadSelection, 0xFFFF_FFFF, old(r.Unread())), v)
    ensures 3 * pushed <= |old(r.Unread())| - |r.Unread()|
    ensures v.Success? ==> pushed == |v.value|
  {
    var count := r.U32();
    if count.Failure? {
      return Failure(count.error), 0;
    }
    SelectionsBound(count.value, r.Unread());
    v, pushed := UnmarshalSelections(r, count.value);
  }

  method NextSelection(r: Reader, ghost list: seq<PcrSelection>, ghost n: nat,
                       ghost goal: Parsed<seq<PcrSelection>>, ghost total: nat)
    returns (v: Result<PcrSelection>)
    requires r.Valid() && n > 0 && goal == Prepend(list, ReadMany(ReadSelection, n, r.Unread()))
    requires total == |list| + Pushed(ReadSelection, n, r.Unread())
    modifies r
    ensures r.Valid()
    ensures total == |list| + if v.Success? then 1 + Pushed(ReadSelection, n - 1, r.Unread()) else 0
    ensures goal == if v.Success? then Prepend(list + [v.value], ReadMany(ReadSelection, n - 1, r.Unread()))
                    else Stuck(v.error, r.Unread())
  {
    PrependStep(ReadSelection, list, n, r.Unread());
    v := UnmarshalSelection(r);
  }

  method UnmarshalSelections(r: Reader, count: nat)
    returns (v: Result<seq<PcrSelection>>, ghost pushed: nat)
    requires r.Valid()
    modifies r
    ensures r.Yields(ReadMany(ReadSelection, count, old(r.Unread())), v)
    ensures pushed == Pushed(ReadSelection, count, old(r.Unread()))
    ensures v.Success? ==> pushed == |v.value|
  {
    pushed := 0;
    var list: seq<PcrSelection> := [];
    ghost var goal, total := ReadMany(ReadSelection, count, r.Unread()), Pushed(ReadSelection, count, r.Unread());
    for i := 0 to count
      invariant r.Valid() && pushed == |list| == i
      invariant goal == Prepend(list, ReadMany(ReadSelection, count - i, r.Unread()))
      invariant total == i + Pushed(ReadSelection, count - i, r.Unread())
    {
      var entry := NextSelection(r, list, count - i, goal, total);
      if entry.Failure? {
        return Failure(entry.error), pushed;
      }
      list := list + [entry.value];
      pushed := pushed + 1;
    }
    return Success(list), pushed;
  }

  /** Writing and reading PCR selection lists are mutually inverse. */
  lemma SelectionListExact()
    ensures Exact(SELECTION_LIST)
  {
    SelectionExact();
    CountedExact(SELECTION, 0xFFFF_FFFF);
  }

  /** The cast of the bitmap length is what the limit above guards against: a
      selection round-trips exactly when its bitmap has at most 255 bytes. */
  lemma SelectionRoundTripsIff(p: PcrSelection)
    ensures ReadSelection(SelectionBytes(p)) == Parsed(p, []) <==> |p.select| < 0x100
  {
    var size := |p.select| % 0x100;
    ReadU16Inverts(p.hash, [size] + p.select);
    ReadBytesInverts([size], p.select);
    assert ReadSelection(SelectionBytes(p)) == Parsed(PcrSelection(p.hash, p.select[..size]), p.select[size..]);
    if |p.select| >= 0x100 {
      assert |p.select[..size]| < |p.select|;
    } else {
      assert p.select[..size] == p.select;
    }
  }

  // ---------- TPML_DIGEST and TPMT_TK_CREATION ----------

  const DIGEST_LIST: Codec<seq<bytes>> := Counted(TPM2B, 0xFFFF)

  method ReadDigestList(r: Reader) returns (v: Result<seq<bytes>>, ghost pushed: nat)
    requires r.Valid()
    modifies r
    ensures r.Yields(ReadCounted(ReadTpm2b, 0xFFFF, old(r.Unread())), v)
    ensures 2 * pushed <= |old(r.Unread())| - |r.Unread()|
    ensures v.Success? ==> pushed == |v.value|
  {
    var count := r.U32();
    if count.Failure? {
      return Failure(count.error), 0;
    }
    if count.value > 0xFFFF {
      return Failure(Malformed), 0;
    }
    DigestsBound(count.value, r.Unread());
    v, pushed := ReadDigests(r, count.value);
  }

  method NextDigest(r: Reader, ghost list: seq<bytes>, ghost n: nat, ghost goal: Parsed<seq<bytes>>, ghost total: nat)
    returns (v: Result<bytes>)
    requires r.Valid() && n > 0 && goal == Prepend(list, ReadMany(ReadTpm2b, n, r.Unread()))
    requires total == |list| + Pushed(ReadTpm2b, n, r.Unread())
    modifies r
    ensures r.Valid()
    ensures total == |list| + if v.Success? then 1 + Pushed(ReadTpm2b, n - 1, r.Unread()) else 0
    ensures goal == if v.Success? then Prepend(list + [v.value], ReadMany(ReadTpm2b, n - 1, r.Unread()))
                    else Stuck(v.error, r.Unread())
  {
    PrependStep(ReadTpm2b, list, n, r.Unread());
    v := r.Tpm2b();
  }

  method ReadDigests(r: Reader, count: nat) returns (v: Result<seq<bytes>>, ghost pushed: nat)
    requires r.Valid()
    modifies r
    ensures r.Yields(ReadMany(ReadTpm2b, count, old(r.Unread())), v)
    ensures pushed == Pushed(ReadTpm2b, count, old(r.Unread()))
    ensures v.Success? ==> pushed == |v.value|
  {
    pushed := 0;
    var list: seq<bytes> := [];
    ghost var goal, total := ReadMany(ReadTpm2b, count, r.Unread()), Pushed(ReadTpm2b, count, r.Unread());
    for i := 0 to count
      invariant r.Valid() && pushed == |list| == i
      invariant goal == Prepend(list, ReadMany(ReadTpm2b, count - i, r.Unread()))
      invariant total == i + Pushed(ReadTpm2b, count - i, r.Unread())
    {
      var entry := NextDigest(r, list, count - i, goal, total);
      if entry.Failure? {
        return Failure(entry.error), pushed;
      }
      list := list + [entry.value];
      pushed := pushed + 1;
    }
    return Success(list), pushed;
  }

  /** Digest lists of at most 65535 entries: reading inverts a reference writer
      both ways. */
  lemma DigestListExact()
    ensures Exact(DIGEST_LIST)
  {
    Tpm2bExact();
    CountedExact(TPM2B, 0xFFFF);
  }

  function ReadTicket(s: bytes): Parsed<()> {
    var (tag, s) :- ReadU16(s);
    var (hierarchy, s) :- ReadU32(s);
    var (digest, s) :- ReadTpm2b(s);
    Parsed((), s)
  }

  /** Reads past a creation ticket. */
  method SkipTicket(r: Reader) returns (v: Result<()>)
    requires r.Valid()
    modifies r
    ensures r.Yields(ReadTicket(old(r.Unread())), v)
  {
    var _ :- r.U16();
    var _ :- r.U32();
    var _ :- r.Tpm2b();
    return Success(());
  }
}
