/** Reading PCR banks and extending a PCR. */
module PcrCommands {
  import opened Basics
  import opened Bits
  import opened Constants
  import opened Marshal
  import opened Codecs
  import opened Structures
  import opened CryptoCore
  import opened Sessions
  import opened Dispatcher

  // ---------- selecting one PCR ----------

  /** PCR k is selected by bit k % 8 of byte k / 8. */
  predicate Selects(select: bytes, k: nat) {
    k / 8 < |select| && select[k / 8] / Pow2(k % 8) % 2 == 1
  }

  lemma BelowUnit(a: nat, b: nat, q: nat)
    requires 0 < a && b == a * (2 * q) && q > 0
    ensures a / b == 0
  {
    MulMonotone(1, 2 * q, a);
    MulMonotone(2, 2 * q, a);
    assert a < b;
  }

  lemma ExactQuotient(a: nat, b: nat, q: nat)
    requires b > 0 && a == b * q
    ensures a / b == q
  {
    DivideExactly(a, b, q, 0);
  }

  lemma HigherBit(i: nat, d: nat)
    requires d > 0
    ensures Pow2(i) / Pow2(i + d) == 0
  {
    Pow2Add(i, d);
    BelowUnit(Pow2(i), Pow2(i + d), Pow2(d - 1));
  }

  lemma LowerBit(j: nat, d: nat)
    ensures Pow2(j + d) / Pow2(j) == Pow2(d)
  {
    Pow2Add(j, d);
    ExactQuotient(Pow2(j + d), Pow2(j), Pow2(d));
  }

  lemma OneBit(i: nat, j: nat)
    ensures Pow2(i) / Pow2(j) % 2 == 1 <==> i == j
  {
    if i < j {
      HigherBit(i, j - i);
    } else {
      LowerBit(j, i - j);
    }
  }

  lemma OnlyOne(select: bytes, pcr: byte)
    requires pcr / 8 < |select| && select[pcr / 8] == Pow2(pcr % 8)
    requires forall i | 0 <= i < |select| && i != pcr / 8 :: select[i] == 0
    ensures forall k: nat :: Selects(select, k) <==> k == pcr
  {
    forall k: nat ensures Selects(select, k) <==> k == pcr {
      if k / 8 == pcr / 8 {
        OneBit(pcr % 8, k % 8);
      } else if k / 8 < |select| {
        ZeroQuotient(Pow2(k % 8));
      }
    }
  }

  lemma ZeroQuotient(b: nat)
    requires b > 0
    ensures 0 / b == 0
  {
  }

  /** The bitmap of a single PCR: at least the standard three bytes, and no
      other PCR is selected. */
  method Single(hash: u16, pcr: byte) returns (p: PcrSelection)
    ensures p.hash == hash && |p.select| == if pcr < 24 then 3 else pcr / 8 + 1
    ensures forall k: nat :: Selects(p.select, k) <==> k == pcr
  {
    var index := pcr / 8;
    OneByte(pcr % 8);
    var select: bytes := seq(index + 1, i => 0);
    select := select[index := Pow2(pcr % 8)];
    if |select| < 3 {
      select := select + seq(3 - |select|, i => 0);
    }
    OnlyOne(select, pcr);
    p := PcrSelection(hash, select);
  }

  lemma OneByte(i: nat)
    requires i < 8
    ensures Pow2(i) <= 128
  {
    Pow2Add(i, 7 - i);
    assert Pow2(7) == 128;
    MulMonotone(1, Pow2(7 - i), Pow2(i));
  }

  // ---------- TPM2_PCR_Read ----------

  datatype PcrReadResult = PcrReadResult(updateCounter: u32, selection: seq<PcrSelection>, values: seq<bytes>)

  function PcrReadCall(selection: seq<PcrSelection>): Call {
    Call(CC_PCR_READ, [], [], CountedBytes(SelectionBytes, selection), 0)
  }

  function ReadPcrValues(s: bytes): Parsed<PcrReadResult> {
    var (updateCounter, s) :- ReadU32(s);
    var (selection, s) :- ReadCounted(ReadSelection, 0xFFFF_FFFF, s);
    var (values, s) :- ReadCounted(ReadTpm2b, 0xFFFF, s);
    Parsed(PcrReadResult(updateCounter, selection, values), s)
  }

  function PcrReadFrom(result: Result<RawResponse>): Result<PcrReadResult> {
    var resp :- result;
    ReadPcrValues(resp.params).ToResult()
  }

  method PcrRead<S>(tpm: Tpm<S>, selection: seq<PcrSelection>) returns (r: Result<PcrReadResult>)
    modifies tpm.transport
    ensures var o := RunCall(tpm.c, tpm.transport.step, old(tpm.transport.state), PcrReadCall(selection),
                             NoAuthView, []);
      && tpm.Did(o, o.result, NoAuth, old(tpm.transport.sent))
      && r == PcrReadFrom(o.result)
  {
    var p := new OutBuffer();
    MarshalSelectionList(selection, p);
    assert p.data == CountedBytes(SelectionBytes, selection);
    var result := tpm.Run(Call(CC_PCR_READ, [], [], p.data, 0), NoAuth, []);
    r := ParsePcrRead(result);
  }

  method ParsePcrRead(result: Result<RawResponse>) returns (r: Result<PcrReadResult>)
    ensures r == PcrReadFrom(result)
  {
    var resp :- result;
    var reader := new Reader(resp.params);
    r := UnmarshalPcrValues(reader);
  }

  method UnmarshalPcrValues(reader: Reader) returns (r: Result<PcrReadResult>)
    requires reader.Valid()
    modifies reader
    ensures reader.Yields(ReadPcrValues(old(reader.Unread())), r)
  {
    ghost var goal := ReadPcrValues(reader.Unread());
    var updateCounter :- reader.U32();
    var selection, _ := UnmarshalSelectionList(reader);
    if selection.Failure? {
      return Failure(selection.error);
    }
    var values, _ := ReadDigestList(reader);
    if values.Failure? {
      return Failure(values.error);
    }
    return Success(PcrReadResult(updateCounter, selection.value, values.value));
  }

  /** A selection of one PCR of one bank and no other. */
  ghost predicate SelectsOne(p: PcrSelection, bank: u16, pcr: byte) {
    && p.hash == bank && 3 <= |p.select| <= 32
    && forall k: nat :: Selects(p.select, k) <==> k == pcr
  }

  function PcrOneFrom(result: Result<RawResponse>): Result<Option<bytes>> {
    var v :- PcrReadFrom(result);
    Success(if v.values == [] then None else Some(v.values[0]))
  }

  /** One PCR of one bank: its digest, or nothing if no value came back. */
  method PcrReadOne<S>(tpm: Tpm<S>, bank: u16, pcr: byte) returns (r: Result<Option<bytes>>)
    modifies tpm.transport
    ensures exists p: PcrSelection ::
      && SelectsOne(p, bank, pcr)
      && var o := RunCall(tpm.c, tpm.transport.step, old(tpm.transport.state), PcrReadCall([p]), NoAuthView, []);
         && tpm.Did(o, o.result, NoAuth, old(tpm.transport.sent))
         && r == PcrOneFrom(o.result)
  {
    var p := Single(bank, pcr);
    assert SelectsOne(p, bank, pcr);
    var res :- PcrRead(tpm, [p]);
    return Success(if res.values == [] then None else Some(res.values[0]));
  }

  function PcrValueBytes(v: PcrReadResult): bytes {
    U32Bytes(v.updateCounter) + (CountedBytes(SelectionBytes, v.selection) + CountedBytes(BufferBytes, v.values))
  }

  /** The host recovers the counter, the selection and the values of a
      well-formed response, whatever follows them. */
  lemma PcrValuesInvert(v: PcrReadResult, post: bytes)
    requires |v.selection| <= 0xFFFF_FFFF && AllFit(SELECTION.fits, v.selection)
    requires |v.values| <= 0xFFFF && AllFit(TPM2B.fits, v.values)
    ensures ReadPcrValues(PcrValueBytes(v) + post) == Parsed(v, post)
  {
    var t2 := CountedBytes(BufferBytes, v.values) + post;
    var t1 := CountedBytes(SelectionBytes, v.selection) + t2;
    assert PcrValueBytes(v) + post == U32Bytes(v.updateCounter) + t1;
    ReadU32Inverts(v.updateCounter, t1);
    SelectionListExact();
    assert Inverts(SELECTION_LIST, v.selection, t2);
    DigestListExact();
    assert Inverts(DIGEST_LIST, v.values, post);
  }

  // ---------- TPM2_PCR_Extend ----------

  /** TPMT_HA: the algorithm and a digest with no length of its own. */
  datatype BankDigest = BankDigest(alg: u16, digest: bytes)

  function BankDigestBytes(d: BankDigest): bytes {
    U16Bytes(d.alg) + d.digest
  }

  predicate BankDigestFits(d: BankDigest) {
    IsHash(d.alg) && |d.digest| == SizeOf(d.alg)
  }

  /** The TPM knows each digest's size from its algorithm. */
  function ReadBankDigest(s: bytes): Parsed<BankDigest> {
    var (alg, s) :- ReadU16(s);
    if !IsHash(alg) then Stuck(Malformed, s)
    else
      var (digest, s) :- ReadBytes(SizeOf(alg), s);
      Parsed(BankDigest(alg, digest), s)
  }

  const BANK_DIGEST: Codec<BankDigest> := Codec(BankDigestBytes, BankDigestFits, ReadBankDigest)
  const DIGEST_VALUES: Codec<seq<BankDigest>> := Counted(BANK_DIGEST, 0xFFFF_FFFF)

  lemma BankDigestExact()
    ensures Exact(BANK_DIGEST)
  {
    forall d, post ensures Inverts(BANK_DIGEST, d, post) {
      if BankDigestFits(d) {
        assert BankDigestBytes(d) + post == U16Bytes(d.alg) + (d.digest + post);
        ReadU16Inverts(d.alg, d.digest + post);
        ReadBytesInverts(d.digest, post);
      }
    }
    forall s ensures Canonical(BANK_DIGEST, s) {
      if ReadBankDigest(s).Parsed? {
        ReadU16Canonical(s);
      }
    }
  }

  function PcrExtendCall(pcr: u32, digests: seq<BankDigest>): Call {
    Call(CC_PCR_EXTEND, [pcr], [PermanentName(pcr)], CountedBytes(BankDigestBytes, digests), 0)
  }

  method PcrExtend<S>(tpm: Tpm<S>, pcr: u32, digests: seq<BankDigest>, auth: Auth, entropy: bytes)
    returns (r: Result<()>)
    requires EnoughEntropy(View(auth), entropy)
    modifies tpm.transport, Footprint(auth)
    ensures var o := RunCall(tpm.c, tpm.transport.step, old(tpm.transport.state), PcrExtendCall(pcr, digests),
                             old(View(auth)), entropy);
      && tpm.Did(o, o.result, auth, old(tpm.transport.sent))
      && r == if o.result.Success? then Success(()) else Failure(o.result.error)
  {
    var p := MarshalDigestValues(digests);
    var _ :- tpm.Run(Call(CC_PCR_EXTEND, [pcr], [PermanentName(pcr)], p, 0), auth, entropy);
    return Success(());
  }

  method MarshalBankDigest(d: BankDigest, out: OutBuffer)
    modifies out
    ensures out.data == old(out.data) + BankDigestBytes(d)
  {
    out.MarshalU16(d.alg);
    out.Extend(d.digest);
  }

  method MarshalDigestValues(digests: seq<BankDigest>) returns (p: bytes)
    ensures p == CountedBytes(BankDigestBytes, digests)
  {
    var out := new OutBuffer();
    out.MarshalU32(LowU32(|digests|));
    ghost var goal := CountedBytes(BankDigestBytes, digests);
    for i := 0 to |digests|
      invariant goal == out.data + ListBytes(BankDigestBytes, digests[i..])
    {
      ListBytesStep(BankDigestBytes, digests, i, out.data);
      MarshalBankDigest(digests[i], out);
    }
    p := out.data;
    assert p + [] == p;
  }

  /** The TPM decodes exactly the digests that were given precisely when each
      has the size of its bank's hash. */
  lemma DigestValuesDecodeIff(digests: seq<BankDigest>)
    ensures ReadCounted(ReadBankDigest, 0xFFFF_FFFF, CountedBytes(BankDigestBytes, digests)) == Parsed(digests, [])
       <==> |digests| <= 0xFFFF_FFFF && AllFit(BankDigestFits, digests)
  {
    var s := CountedBytes(BankDigestBytes, digests);
    BankDigestExact();
    CountedExact(BANK_DIGEST, 0xFFFF_FFFF);
    DecodesIff(DIGEST_VALUES, digests, []);
    assert s + [] == s;
  }
}
