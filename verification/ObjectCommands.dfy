/** The object lifecycle: create a primary, create a child, load it, unseal it. */
module ObjectCommands {
  import opened Basics
  import opened Constants
  import opened Marshal
  import opened Codecs
  import opened Structures
  import opened Sessions
  import opened Dispatcher
  import opened Exchanges

  datatype CreatePrimaryResult = CreatePrimaryResult(handle: u32, name: bytes, public: bytes)
  datatype CreateResult = CreateResult(private: bytes, public: bytes)
  datatype LoadResult = LoadResult(handle: u32, name: bytes)

  // ---------- the parameters of TPM2_Create and TPM2_CreatePrimary ----------

  /** inSensitive, inPublic, an empty outsideInfo and an empty creationPCR. */
  function CreateParams(sensitive: SensitiveCreate, public: Public): bytes {
    BufferBytes(SensitiveBytes(sensitive))
    + (BufferBytes(PublicBytes(public))
       + (BufferBytes([]) + CountedBytes(SelectionBytes, [])))
  }

  method BuildCreateParams(sensitive: SensitiveCreate, public: Public) returns (p: bytes)
    ensures p == CreateParams(sensitive, public)
  {
    var out := new OutBuffer();
    WrapSensitive(sensitive, out);
    WrapPublic(public, out);
    var _ := out.MarshalTpm2b([]);
    MarshalSelectionList([], out);
    p := out.data;
    RegroupParams(BufferBytes(SensitiveBytes(sensitive)), BufferBytes(PublicBytes(public)), BufferBytes([]),
                  CountedBytes(SelectionBytes, []));
  }

  lemma RegroupParams(a: bytes, b: bytes, d: bytes, e: bytes)
    ensures [] + a + b + d + e == a + (b + (d + e))
  {
  }

  /** What a TPM decodes: two structures inside TPM2Bs, a TPM2B and a list. */
  const CREATE_PARAMS: Codec<(SensitiveCreate, (Public, (bytes, seq<PcrSelection>)))> :=
    Pair(Sized(SENSITIVE), Pair(Sized(PUBLIC), Pair(TPM2B, SELECTION_LIST)))

  lemma CreateParamsExact()
    ensures Exact(CREATE_PARAMS)
  {
    SensitiveExact();
    SizedExact(SENSITIVE);
    PublicExact();
    SizedExact(PUBLIC);
    Tpm2bExact();
    SelectionListExact();
    PairExact(TPM2B, SELECTION_LIST);
    PairExact(Sized(PUBLIC), Pair(TPM2B, SELECTION_LIST));
    PairExact(Sized(SENSITIVE), Pair(Sized(PUBLIC), Pair(TPM2B, SELECTION_LIST)));
  }

  predicate SensitiveFits(v: SensitiveCreate) {
    4 + |v.userAuth| + |v.data| <= U16_MAX
  }

  lemma SensitiveFitsExactly(v: SensitiveCreate)
    ensures SensitiveFits(v) <==> Sized(SENSITIVE).fits(v)
  {
    if |v.userAuth| <= U16_MAX && |v.data| <= U16_MAX {
      assert |SensitiveBytes(v)| == 4 + |v.userAuth| + |v.data|;
    }
  }

  /** Through two levels of nesting, a TPM decodes exactly the secret and the
      template that were given, precisely when both of them fit; a part that
      does not fit is dropped whole and the request means something else. */
  lemma CreateParamsDecodeIff(sensitive: SensitiveCreate, public: Public)
    ensures CREATE_PARAMS.read(CreateParams(sensitive, public))
         == Parsed((sensitive, (public.Normalized(), ([], []))), [])
       <==> SensitiveFits(sensitive) && PublicFits(public)
  {
    var x := (sensitive, (public.Normalized(), ([], [])));
    CreateParamsFit(sensitive, public);
    CreateParamsExact();
    DecodesIff(CREATE_PARAMS, x, []);
    assert CREATE_PARAMS.enc(x) + [] == CreateParams(sensitive, public);
  }

  lemma CreateParamsFit(sensitive: SensitiveCreate, public: Public)
    ensures var x := (sensitive, (public.Normalized(), ([], [])));
      && CREATE_PARAMS.enc(x) == CreateParams(sensitive, public)
      && (CREATE_PARAMS.fits(x) <==> SensitiveFits(sensitive) && PublicFits(public))
  {
    NormalizedSameBytes(public);
    SensitiveFitsExactly(sensitive);
    PublicFitsExactly(public);
  }

  /** outsideInfo and creationPCR, both empty. */
  const TAIL: bytes := BufferBytes([]) + CountedBytes(SelectionBytes, [])

  lemma NoStructureIsEmpty()
    ensures ReadSized(SENSITIVE, TAIL).Stuck? && ReadSized(PUBLIC, TAIL).Stuck?
  {
    ReadTpm2bInverts([], CountedBytes(SelectionBytes, []));
  }

  lemma ShortSecretStuck(v: SensitiveCreate, post: bytes)
    requires !SensitiveFits(v) && |SensitiveBytes(v)| <= U16_MAX
    ensures ReadSized(SENSITIVE, BufferBytes(SensitiveBytes(v)) + post).Stuck?
  {
    ReadTpm2bInverts(SensitiveBytes(v), post);
    assert |v.userAuth| > U16_MAX || |v.data| > U16_MAX;
    var only := if |v.userAuth| <= U16_MAX then v.userAuth else v.data;
    assert SensitiveBytes(v) == BufferBytes(only);
    if |only| <= U16_MAX {
      ReadTpm2bInverts(only, []);
      assert BufferBytes(only) + [] == BufferBytes(only);
    }
  }

  /** A public area, or nothing at all, where the secret is expected. */
  lemma NoSecretStuck(area: bytes)
    ensures var p := ReadSized(SENSITIVE, BufferBytes(area) + TAIL);
      p.Parsed? ==> ReadSized(PUBLIC, p.rest).Stuck?
  {
    NoStructureIsEmpty();
    if |area| <= U16_MAX {
      ReadTpm2bInverts(area, TAIL);
    } else {
      assert BufferBytes(area) + TAIL == TAIL;
    }
  }

  /** The secret and the template of a request that is taken. */
  lemma TakenInParts(s: bytes)
    ensures var r, p := CREATE_PARAMS.read(s), ReadSized(SENSITIVE, s);
      r.Parsed? ==>
        p.Parsed? && ReadSized(PUBLIC, p.rest).Parsed?
        && r.value.0 == p.value && r.value.1.0 == ReadSized(PUBLIC, p.rest).value
  {
  }

  lemma StructureMissing(v: SensitiveCreate, area: bytes)
    requires !SensitiveFits(v)
    ensures var p := ReadSized(SENSITIVE, BufferBytes(SensitiveBytes(v)) + (BufferBytes(area) + TAIL));
      p.Parsed? ==> ReadSized(PUBLIC, p.rest).Stuck?
  {
    if |SensitiveBytes(v)| <= U16_MAX {
      ShortSecretStuck(v, BufferBytes(area) + TAIL);
    } else {
      NoSecretStuck(area);
      assert [] + (BufferBytes(area) + TAIL) == BufferBytes(area) + TAIL;
    }
  }

  /** A secret that does not fit is always refused: what follows it is read in
      its place, and then a structure is missing. */
  lemma OversizedSecretRefused(sensitive: SensitiveCreate, public: Public)
    requires !SensitiveFits(sensitive)
    ensures CREATE_PARAMS.read(CreateParams(sensitive, public)).Stuck?
  {
    StructureMissing(sensitive, PublicBytes(public));
    TakenInParts(CreateParams(sensitive, public));
  }

  /** What the TPM takes is the secret given and a template with the same bytes. */
  lemma TakenAs(sensitive: SensitiveCreate, public: Public)
    ensures var r := CREATE_PARAMS.read(CreateParams(sensitive, public));
      r.Parsed? ==>
        && SensitiveFits(sensitive) && r.value.0 == sensitive
        && PublicFits(r.value.1.0) && PublicBytes(r.value.1.0) == PublicBytes(public)
  {
    if SensitiveFits(sensitive) {
      TakenInParts(CreateParams(sensitive, public));
      SecretTaken(sensitive, BufferBytes(PublicBytes(public)) + TAIL);
      PublicTaken(public);
    } else {
      OversizedSecretRefused(sensitive, public);
    }
  }

  lemma SecretTaken(v: SensitiveCreate, post: bytes)
    requires SensitiveFits(v)
    ensures ReadSized(SENSITIVE, BufferBytes(SensitiveBytes(v)) + post) == Parsed(v, post)
  {
    SensitiveFitsExactly(v);
    SensitiveExact();
    SizedInverts(SENSITIVE, v, post);
  }

  lemma PublicTaken(p: Public)
    ensures var r := ReadSized(PUBLIC, BufferBytes(PublicBytes(p)) + TAIL);
      r.Parsed? ==> PublicFits(r.value) && PublicBytes(r.value) == PublicBytes(p)
  {
    var area := PublicBytes(p);
    PublicExact();
    if |area| <= U16_MAX {
      SizedDetermines(PUBLIC, area, TAIL);
    } else {
      NoStructureIsEmpty();
      assert BufferBytes(area) + TAIL == TAIL;
    }
  }

  /** A request is taken for one with template q precisely when the secret fits
      and q fits and looks the same on the wire. */
  lemma TakenForIff(sensitive: SensitiveCreate, p: Public, q: Public)
    requires q == q.Normalized()
    ensures CREATE_PARAMS.read(CreateParams(sensitive, p)) == Parsed((sensitive, (q, ([], []))), [])
       <==> SensitiveFits(sensitive) && PublicFits(q) && PublicBytes(p) == PublicBytes(q)
  {
    TakenAs(sensitive, p);
    CreateParamsDecodeIff(sensitive, q);
    if PublicBytes(p) == PublicBytes(q) {
      assert CreateParams(sensitive, p) == CreateParams(sensitive, q);
    }
  }

  /** A policy too long to be written goes away with its length, and the scheme
      selector is taken for the length of the policy.  With such a unique field
      the request is taken for one with another policy. */
  lemma OversizedPolicyIsMisread(sensitive: SensitiveCreate, nameAlg: u16, attributes: u32, authPolicy: bytes,
                                 start: bytes, d: bytes)
    requires SensitiveFits(sensitive)
    requires |authPolicy| > U16_MAX && |start| == 14 && |d| <= 0x8000
    ensures var unique := start + U16Bytes(ALG_NULL) + BufferBytes(d);
      var p := Public(ALG_KEYEDHASH, nameAlg, attributes, authPolicy, KeyedHashParms(ALG_NULL), KeyedHashId(unique));
      var q := Public(ALG_KEYEDHASH, nameAlg, attributes, U16Bytes(|unique|) + start, KeyedHashParms(ALG_NULL),
                      KeyedHashId(d));
      CREATE_PARAMS.read(CreateParams(sensitive, p)) == Parsed((sensitive, (q, ([], []))), [])
  {
    var unique := start + U16Bytes(ALG_NULL) + BufferBytes(d);
    var p := Public(ALG_KEYEDHASH, nameAlg, attributes, authPolicy, KeyedHashParms(ALG_NULL), KeyedHashId(unique));
    var q := Public(ALG_KEYEDHASH, nameAlg, attributes, U16Bytes(|unique|) + start, KeyedHashParms(ALG_NULL),
                    KeyedHashId(d));
    OversizedPolicyBytes(nameAlg, attributes, authPolicy, start, d);
    TakenForIff(sensitive, p, q);
  }

  /** With a selector that names the variants in use and a policy of up to 65535
      bytes, a request is refused or taken as it was meant, and taken precisely
      when both parts fit. */
  lemma TakenAsMeantOrRefused(sensitive: SensitiveCreate, public: Public)
    requires public.Aligned() && |public.authPolicy| <= U16_MAX
    ensures var r := CREATE_PARAMS.read(CreateParams(sensitive, public));
      && (r.Parsed? <==> SensitiveFits(sensitive) && PublicFits(public))
      && (r.Parsed? ==> r == Parsed((sensitive, (public.Normalized(), ([], []))), []))
  {
    CreateParamsDecodeIff(sensitive, public);
    TakenAs(sensitive, public);
    var r := CREATE_PARAMS.read(CreateParams(sensitive, public));
    if r.Parsed? {
      SameBytesFit(public, r.value.1.0);
    }
  }

  // ---------- requests ----------

  function CreatePrimaryCall(hierarchy: u32, sensitive: SensitiveCreate, public: Public): Call {
    Call(CC_CREATE_PRIMARY, [hierarchy], [PermanentName(hierarchy)], CreateParams(sensitive, public), 1)
  }

  function CreateCall(parent: u32, parentName: bytes, sensitive: SensitiveCreate, public: Public): Call {
    Call(CC_CREATE, [parent], [parentName], CreateParams(sensitive, public), 0)
  }

  function LoadCall(parent: u32, parentName: bytes, private: bytes, public: bytes): Call {
    Call(CC_LOAD, [parent], [parentName], BufferBytes(private) + BufferBytes(public), 1)
  }

  function UnsealCall(item: u32, itemName: bytes): Call {
    Call(CC_UNSEAL, [item], [itemName], [], 0)
  }

  // ---------- responses ----------

  function ReadPrimary(handle: u32, s: bytes): Parsed<CreatePrimaryResult> {
    var (public, s) :- ReadTpm2b(s);
    var (creationData, s) :- ReadTpm2b(s);
    var (creationHash, s) :- ReadTpm2b(s);
    var (ticket, s) :- ReadTicket(s);
    var (name, s) :- ReadTpm2b(s);
    Parsed(CreatePrimaryResult(handle, name, public), s)
  }

  function ReadCreated(s: bytes): Parsed<CreateResult> {
    var (private, s) :- ReadTpm2b(s);
    var (public, s) :- ReadTpm2b(s);
    Parsed(CreateResult(private, public), s)
  }

  predicate OneHandle(result: Result<RawResponse>) {
    result.Success? ==> |result.value.handles| == 1
  }

  function PrimaryFrom(result: Result<RawResponse>): Result<CreatePrimaryResult>
    requires OneHandle(result)
  {
    var resp :- result;
    ReadPrimary(resp.handles[0], resp.params).ToResult()
  }

  function CreatedFrom(result: Result<RawResponse>): Result<CreateResult> {
    var resp :- result;
    ReadCreated(resp.params).ToResult()
  }

  function LoadedFrom(result: Result<RawResponse>): Result<LoadResult>
    requires OneHandle(result)
  {
    var resp :- result;
    var name :- ReadTpm2b(resp.params).ToResult();
    Success(LoadResult(resp.handles[0], name))
  }

  function UnsealedFrom(result: Result<RawResponse>): Result<bytes> {
    var resp :- result;
    ReadTpm2b(resp.params).ToResult()
  }

  // ---------- the commands ----------

  method CreatePrimary<S>(tpm: Tpm<S>, hierarchy: u32, sensitive: SensitiveCreate, public: Public,
                          auth: Auth, entropy: bytes)
    returns (r: Result<CreatePrimaryResult>)
    requires EnoughEntropy(View(auth), entropy)
    modifies tpm.transport, Footprint(auth)
    ensures var o := RunCall(tpm.c, tpm.transport.step, old(tpm.transport.state),
                             CreatePrimaryCall(hierarchy, sensitive, public), old(View(auth)), entropy);
      && tpm.Did(o, o.result, auth, old(tpm.transport.sent))
      && OneHandle(o.result) && r == PrimaryFrom(o.result)
  {
    var p := BuildCreateParams(sensitive, public);
    var call := Call(CC_CREATE_PRIMARY, [hierarchy], [PermanentName(hierarchy)], p, 1);
    HandlesAsAsked(tpm.c, tpm.transport.step, tpm.transport.state, call, View(auth), entropy);
    var result := tpm.Run(call, auth, entropy);
    r := ParsePrimary(result);
  }

  method ParsePrimary(result: Result<RawResponse>) returns (r: Result<CreatePrimaryResult>)
    requires OneHandle(result)
    ensures r == PrimaryFrom(result)
  {
    var resp :- result;
    var handle := resp.handles[0];
    var reader := new Reader(resp.params);
    r := UnmarshalPrimary(handle, reader);
  }

  method UnmarshalPrimary(handle: u32, reader: Reader) returns (r: Result<CreatePrimaryResult>)
    requires reader.Valid()
    modifies reader
    ensures reader.Yields(ReadPrimary(handle, old(reader.Unread())), r)
  {
    ghost var goal := ReadPrimary(handle, reader.Unread());
    var public :- reader.Tpm2b();
    var _ :- reader.Tpm2b();
    var _ :- reader.Tpm2b();
    var _ :- SkipTicket(reader);
    var name :- reader.Tpm2b();
    return Success(CreatePrimaryResult(handle, name, public));
  }

  method Create<S>(tpm: Tpm<S>, parent: u32, parentName: bytes, sensitive: SensitiveCreate, public: Public,
                   auth: Auth, entropy: bytes)
    returns (r: Result<CreateResult>)
    requires EnoughEntropy(View(auth), entropy)
    modifies tpm.transport, Footprint(auth)
    ensures var o := RunCall(tpm.c, tpm.transport.step, old(tpm.transport.state),
                             CreateCall(parent, parentName, sensitive, public), old(View(auth)), entropy);
      && tpm.Did(o, o.result, auth, old(tpm.transport.sent))
      && r == CreatedFrom(o.result)
  {
    var p := BuildCreateParams(sensitive, public);
    var result := tpm.Run(Call(CC_CREATE, [parent], [parentName], p, 0), auth, entropy);
    r := ParseCreated(result);
  }

  method ParseCreated(result: Result<RawResponse>) returns (r: Result<CreateResult>)
    ensures r == CreatedFrom(result)
  {
    var resp :- result;
    var reader := new Reader(resp.params);
    var private :- reader.Tpm2b();
    var outPublic :- reader.Tpm2b();
    return Success(CreateResult(private, outPublic));
  }

  method Load<S>(tpm: Tpm<S>, parent: u32, parentName: bytes, private: bytes, public: bytes,
                 auth: Auth, entropy: bytes)
    returns (r: Result<LoadResult>)
    requires EnoughEntropy(View(auth), entropy)
    modifies tpm.transport, Footprint(auth)
    ensures var o := RunCall(tpm.c, tpm.transport.step, old(tpm.transport.state),
                             LoadCall(parent, parentName, private, public), old(View(auth)), entropy);
      && tpm.Did(o, o.result, auth, old(tpm.transport.sent))
      && OneHandle(o.result) && r == LoadedFrom(o.result)
  {
    var out := new OutBuffer();
    var _ := out.MarshalTpm2b(private);
    var _ := out.MarshalTpm2b(public);
    assert out.data == BufferBytes(private) + BufferBytes(public);
    var call := Call(CC_LOAD, [parent], [parentName], out.data, 1);
    HandlesAsAsked(tpm.c, tpm.transport.step, tpm.transport.state, call, View(auth), entropy);
    var result := tpm.Run(call, auth, entropy);
    r := ParseLoaded(result);
  }

  method ParseLoaded(result: Result<RawResponse>) returns (r: Result<LoadResult>)
    requires OneHandle(result)
    ensures r == LoadedFrom(result)
  {
    var resp :- result;
    var handle := resp.handles[0];
    var reader := new Reader(resp.params);
    var name :- reader.Tpm2b();
    return Success(LoadResult(handle, name));
  }

  method Unseal<S>(tpm: Tpm<S>, item: u32, itemName: bytes, auth: Auth, entropy: bytes)
    returns (r: Result<bytes>)
    requires EnoughEntropy(View(auth), entropy)
    modifies tpm.transport, Footprint(auth)
    ensures var o := RunCall(tpm.c, tpm.transport.step, old(tpm.transport.state),
                             UnsealCall(item, itemName), old(View(auth)), entropy);
      && tpm.Did(o, o.result, auth, old(tpm.transport.sent))
      && r == UnsealedFrom(o.result)
  {
    var result := tpm.Run(Call(CC_UNSEAL, [item], [itemName], [], 0), auth, entropy);
    r := ParseUnsealed(result);
  }

  method ParseUnsealed(result: Result<RawResponse>) returns (r: Result<bytes>)
    ensures r == UnsealedFrom(result)
  {
    var resp :- result;
    var reader := new Reader(resp.params);
    r := reader.Tpm2b();
  }
}
