/**
 PCR banks as a device of the reference TPM: a digest for each allocated bank and
 PCR, extended and read as TPM2_PCR_Extend and TPM2_PCR_Read in Part 3 of the TPM
 2.0 Library say; and what the two commands of the stack come to on it.
 */
module PcrBank {
  import opened Basics
  import opened Bits
  import opened Constants
  import opened Marshal
  import opened Codecs
  import opened Structures
  import opened CryptoCore
  import opened Sessions
  import opened Dispatcher
  import opened ReferenceTpm
  import opened LockStep
  import opened Delivery
  import opened Transparency
  import opened PcrCommands

  type Digest = b: bytes | |b| <= 64 witness []

  const RC_HASH: ErrorCode := 0x083
  const RC_SIZE: ErrorCode := 0x095
  const RC_AUTH_MISSING: ErrorCode := 0x125
  const RC_COMMAND_CODE: ErrorCode := 0x143

  /** The longest list of banks, and the number of digests in one response. */
  const MAX_BANKS: nat := 16
  const MAX_VALUES: nat := 8

  /** The first PCRs, as many as there are; each has a cell in each allocated
      bank, and an auth value, mostly empty. */
  datatype Banks = Banks(pcrs: u32, cells: map<(u16, u32), Digest>, auths: map<u32, bytes>, updates: u32)

  // ---------- extending ----------

  function ExtendCell(c: Crypto, cells: map<(u16, u32), Digest>, pcr: u32, d: BankDigest): map<(u16, u32), Digest> {
    if (d.alg, pcr) in cells then cells[(d.alg, pcr) := c.hash(d.alg, cells[(d.alg, pcr)] + d.digest)] else cells
  }

  function ExtendCells(c: Crypto, cells: map<(u16, u32), Digest>, pcr: u32, digests: seq<BankDigest>)
    : map<(u16, u32), Digest>
  {
    if digests == [] then cells else ExtendCells(c, ExtendCell(c, cells, pcr, digests[0]), pcr, digests[1..])
  }

  function Extend(c: Crypto, d: Banks, authorized: bool, pcr: u32, params: bytes): (Banks, Answer) {
    var p := DIGEST_VALUES.read(params);
    if !authorized then (d, Refused(RC_AUTH_MISSING))
    else if pcr >= d.pcrs then (d, Refused(RC_VALUE))
    else if p.Stuck? || p.rest != [] || |p.value| > MAX_BANKS then (d, Refused(RC_SIZE))
    else
      (d.(cells := ExtendCells(c, d.cells, pcr, p.value), updates := LowU32(d.updates + 1)), Done([], []))
  }

  // ---------- reading ----------

  /** The PCRs from k on that are selected and allocated. */
  function Present(d: Banks, p: PcrSelection, k: u32): seq<u32>
    requires k <= 8 * |p.select| <= 0xFFFF
    decreases 8 * |p.select| - k
  {
    if k == 8 * |p.select| then []
    else (if Selects(p.select, k) && (p.hash, k) in d.cells then [k] else []) + Present(d, p, k + 1)
  }

  /** The octet of a bitmap whose lowest bit stands for PCR base. */
  function MapOctet(ks: seq<u32>, base: nat, n: nat): (b: nat)
    ensures b < Pow2(n)
  {
    if n == 0 then 0 else MapOctet(ks, base, n - 1) + if base + n - 1 in ks then Pow2(n - 1) else 0
  }

  function Bitmap(ks: seq<u32>, n: nat): bytes {
    assert Pow2(8) == 256 by { SmallPowers(); }
    seq(n, i requires 0 <= i < n => MapOctet(ks, 8 * i, 8))
  }

  function CellOf(d: Banks, hash: u16, pcr: u32): Digest {
    if (hash, pcr) in d.cells then d.cells[(hash, pcr)] else []
  }

  function FirstOf(ks: seq<u32>, room: nat): seq<u32> {
    if |ks| <= room then ks else ks[..room]
  }

  /** What is selected and there, until no more digests fit. */
  function ReadCells(d: Banks, selection: seq<PcrSelection>, room: nat): (seq<PcrSelection>, seq<bytes>)
    requires forall i | 0 <= i < |selection| :: |selection[i].select| <= 0xFF
  {
    if selection == [] then ([], [])
    else
      var p := selection[0];
      var ks := FirstOf(Present(d, p, 0), room);
      var (shown, values) := ReadCells(d, selection[1..], room - |ks|);
      ([PcrSelection(p.hash, Bitmap(ks, |p.select|))] + shown,
       seq(|ks|, i requires 0 <= i < |ks| => CellOf(d, p.hash, ks[i])) + values)
  }

  function ReadingOf(d: Banks, selection: seq<PcrSelection>): PcrReadResult
    requires forall i | 0 <= i < |selection| :: |selection[i].select| <= 0xFF
  {
    var (shown, values) := ReadCells(d, selection, MAX_VALUES);
    PcrReadResult(d.updates, shown, values)
  }

  /** A list of banks that a TPM reads: few enough, each a hash that it knows,
      with bitmaps of at least three octets. */
  predicate Readable(selection: seq<PcrSelection>) {
    && |selection| <= MAX_BANKS
    && forall i | 0 <= i < |selection| :: IsHash(selection[i].hash) && 3 <= |selection[i].select| <= 0xFF
  }

  function Read(d: Banks, params: bytes): Answer {
    var p := SELECTION_LIST.read(params);
    if p.Stuck? || p.rest != [] || |p.value| > MAX_BANKS then Refused(RC_SIZE)
    else if exists i :: 0 <= i < |p.value| && !IsHash(p.value[i].hash) then Refused(RC_HASH)
    else if !Readable(p.value) then Refused(RC_VALUE)
    else Done([], PcrValueBytes(ReadingOf(d, p.value)))
  }

  // ---------- the device ----------

  function ExecutePcr(c: Crypto, d: Banks, authorized: bool, code: u32, handles: seq<u32>, params: bytes)
    : (Banks, Answer)
  {
    if code == CC_PCR_EXTEND && |handles| == 1 then Extend(c, d, authorized, handles[0], params)
    else if code == CC_PCR_READ && handles == [] then (d, Read(d, params))
    else (d, Refused(RC_COMMAND_CODE))
  }

  function PcrHandleCount(code: u32): nat {
    if code == CC_START_AUTH_SESSION then 2 else if code == CC_PCR_EXTEND then 1 else 0
  }

  function PcrAuth(d: Banks, h: u32): bytes {
    if h in d.auths then d.auths[h] else []
  }

  function BankDevice(c: Crypto): Device<Banks> {
    Device(PcrHandleCount, (d: Banks, h: u32) => HandleOctets(h), PcrAuth,
           (d: Banks, authorized: bool, code: u32, handles: seq<u32>, params: bytes) =>
             ExecutePcr(c, d, authorized, code, handles, params))
  }

  // ---------- what extending comes to ----------

  /** The digests for one bank, hashed into its PCR one after the other. */
  function Chain(c: Crypto, alg: u16, was: bytes, digests: seq<BankDigest>): bytes
    decreases |digests|
  {
    if digests == [] then was
    else Chain(c, alg, if digests[0].alg == alg then c.hash(alg, was + digests[0].digest) else was, digests[1..])
  }

  /** Precisely the cells of this PCR change, each by the digests for its bank. */
  lemma {:induction false} CellsExtended(c: Crypto, cells: map<(u16, u32), Digest>, pcr: u32,
                                         digests: seq<BankDigest>, alg: u16, i: u32)
    ensures ExtendCells(c, cells, pcr, digests).Keys == cells.Keys
    ensures (alg, i) in cells ==>
      ExtendCells(c, cells, pcr, digests)[(alg, i)]
      == if i == pcr then Chain(c, alg, cells[(alg, i)], digests) else cells[(alg, i)]
    decreases |digests|
  {
    if digests != [] {
      CellsExtended(c, ExtendCell(c, cells, pcr, digests[0]), pcr, digests[1..], alg, i);
    }
  }

  /** A bank with one digest is extended once, one without stays as it was. */
  lemma {:induction false} ChainOfOne(c: Crypto, alg: u16, was: bytes, digests: seq<BankDigest>, k: nat)
    requires forall i | 0 <= i < |digests| && i != k :: digests[i].alg != alg
    requires k < |digests| ==> digests[k].alg == alg
    ensures Chain(c, alg, was, digests)
         == if k < |digests| then c.hash(alg, was + digests[k].digest) else was
    decreases |digests|
  {
    if digests != [] {
      if k == 0 {
        ChainOfOne(c, alg, c.hash(alg, was + digests[0].digest), digests[1..], |digests|);
      } else {
        ChainOfOne(c, alg, was, digests[1..], k - 1);
      }
    }
  }

  lemma ExtendDone(c: Crypto, d: Banks, pcr: u32, digests: seq<BankDigest>, authorized: bool)
    requires |digests| <= MAX_BANKS && AllFit(BankDigestFits, digests)
    ensures var call := PcrExtendCall(pcr, digests);
      ExecutePcr(c, d, authorized, call.code, call.handles, call.params)
      == if !authorized then (d, Refused(RC_AUTH_MISSING))
         else if pcr >= d.pcrs then (d, Refused(RC_VALUE))
         else (d.(cells := ExtendCells(c, d.cells, pcr, digests), updates := LowU32(d.updates + 1)), Done([], []))
  {
    DigestValuesDecodeIff(digests);
  }

  lemma ExtendCallShape(pcr: u32, digests: seq<BankDigest>)
    requires |digests| <= MAX_BANKS && AllFit(BankDigestFits, digests)
    ensures var call := PcrExtendCall(pcr, digests);
      && |call.params| <= 0x1000 && call.handles == [pcr] && PcrHandleCount(call.code) == 1
      && call.names == [HandleOctets(pcr)]
  {
    ListBytesBound(BankDigestBytes, digests, 66);
    PermanentNameOctets(pcr);
  }

  /** A password is short enough to be sent; a session is in step, its nonce has
      the digest's length, and a wrong auth value does not make the right HMAC. */
  ghost predicate Presentable(c: Crypto, dev: Device<Banks>, tpm: TpmState<Banks>, s: SessionState, call: Call,
                              cred: Credential)
    requires call.handles != []
  {
    match cred
    case NoCredential => true
    case ByPassword(pw) => |pw| <= U16_MAX
    case BySession(authValue, entropy) =>
      InStep(s, tpm) && |entropy| == SizeOf(s.alg) && Telling(c, dev, tpm, call, SignedSession(s, entropy), authValue)
  }

  lemma ExtendUsable(c: Crypto, dev: Device<Banks>, tpm: TpmState<Banks>, s: SessionState, pcr: u32,
                     digests: seq<BankDigest>, cred: Credential)
    requires dev == BankDevice(c) && |digests| <= MAX_BANKS && AllFit(BankDigestFits, digests)
    requires Presentable(c, dev, tpm, s, PcrExtendCall(pcr, digests), cred)
    ensures Usable(c, dev, tpm, s, PcrExtendCall(pcr, digests), cred)
  {
    ExtendCallShape(pcr, digests);
    assert NamesOf(dev, tpm.device, [pcr]) == [HandleOctets(pcr)];
  }

  /** The PCR's cells, and no others, have been extended by these digests. */
  ghost predicate ExtendedBy(c: Crypto, d: Banks, after: Banks, pcr: u32, digests: seq<BankDigest>) {
    && after.cells.Keys == d.cells.Keys && after.pcrs == d.pcrs && after.auths == d.auths
    && forall alg: u16, i: u32 | (alg, i) in d.cells ::
         after.cells[(alg, i)] == if i == pcr then Chain(c, alg, d.cells[(alg, i)], digests) else d.cells[(alg, i)]
  }

  lemma ExtendedCells(c: Crypto, d: Banks, pcr: u32, digests: seq<BankDigest>, updates: u32)
    ensures ExtendedBy(c, d, d.(cells := ExtendCells(c, d.cells, pcr, digests), updates := updates), pcr, digests)
  {
    CellsExtended(c, d.cells, pcr, digests, 0, 0);
    forall alg: u16, i: u32 | (alg, i) in d.cells
      ensures ExtendCells(c, d.cells, pcr, digests)[(alg, i)]
           == if i == pcr then Chain(c, alg, d.cells[(alg, i)], digests) else d.cells[(alg, i)]
    {
      CellsExtended(c, d.cells, pcr, digests, alg, i);
    }
  }

  /** What the caller gets, and what has become of the banks. */
  ghost predicate Extends(c: Crypto, d: Banks, pcr: u32, digests: seq<BankDigest>, presented: Option<bytes>,
                          result: Result<RawResponse>, after: Banks)
  {
    if presented.None? then result == Failure(Error.Code(RC_AUTH_MISSING)) && after == d
    else if presented.value != PcrAuth(d, pcr) then result == Failure(Error.Code(RC_AUTH_FAIL)) && after == d
    else if pcr >= d.pcrs then result == Failure(Error.Code(RC_VALUE)) && after == d
    else result.Success? && ExtendedBy(c, d, after, pcr, digests)
  }

  /** Extending a PCR over a transport that delivers, by password or by session:
      each digest is hashed into the cell of its bank and this PCR, every other
      cell stays, and without the PCR's auth value nothing happens. */
  lemma PcrExtendExtends(c: Crypto, dev: Device<Banks>, tpm: TpmState<Banks>, s: SessionState, pcr: u32,
                         digests: seq<BankDigest>, cred: Credential, codes: seq<ErrorCode>, draw: Draw)
    requires dev == BankDevice(c) && |digests| <= MAX_BANKS && AllFit(BankDigestFits, digests)
    requires Presentable(c, dev, tpm, s, PcrExtendCall(pcr, digests), cred) && FewWarnings(codes)
    ensures var o := RunCall(c, Link(c, dev), Delivering(tpm, codes, draw), PcrExtendCall(pcr, digests),
                             ViewOf(cred, s), EntropyOf(cred));
      Extends(c, tpm.device, pcr, digests, Presented(cred), o.result, o.state.tpm.device)
  {
    var call := PcrExtendCall(pcr, digests);
    ExtendUsable(c, dev, tpm, s, pcr, digests, cred);
    ExtendDone(c, tpm.device, pcr, digests, Presented(cred).Some?);
    ExtendedCells(c, tpm.device, pcr, digests, LowU32(tpm.device.updates + 1));
    TransparentWithout(c, dev, tpm, s, call, cred, codes, draw);
  }

  // ---------- what reading comes to ----------

  lemma {:induction false} ReadCellsFit(d: Banks, selection: seq<PcrSelection>, room: nat)
    requires forall i | 0 <= i < |selection| :: |selection[i].select| <= 0xFF
    ensures var (shown, values) := ReadCells(d, selection, room);
      && |shown| == |selection| && (forall i | 0 <= i < |shown| :: |shown[i].select| <= 0xFF)
      && |values| <= room && (forall i | 0 <= i < |values| :: |values[i]| <= 64)
  {
    if selection != [] {
      var ks := FirstOf(Present(d, selection[0], 0), room);
      ReadCellsFit(d, selection[1..], room - |ks|);
    }
  }

  lemma ReadingFits(d: Banks, selection: seq<PcrSelection>)
    requires Readable(selection)
    ensures ValuesFit(ReadingOf(d, selection))
  {
    ReadCellsFit(d, selection, MAX_VALUES);
    var v := ReadingOf(d, selection);
    ListBytesBound(SelectionBytes, v.selection, 258);
    ListBytesBound(BufferBytes, v.values, 66);
  }

  lemma ReadDone(c: Crypto, d: Banks, selection: seq<PcrSelection>)
    requires Readable(selection)
    ensures var call := PcrReadCall(selection);
      && |call.params| <= 0x2000 && call.handles == [] && PcrHandleCount(call.code) == 0
      && ExecutePcr(c, d, false, call.code, call.handles, call.params)
         == (d, Done([], PcrValueBytes(ReadingOf(d, selection))))
  {
    SelectionListExact();
    assert Inverts(SELECTION_LIST, selection, []);
    var s := CountedBytes(SelectionBytes, selection);
    assert s + [] == s;
    ListBytesBound(SelectionBytes, selection, 258);
  }

  const NO_SESSION: SessionState := SessionState(0, 0, 0, [], [], [], [])

  predicate ValuesFit(v: PcrReadResult) {
    && |v.selection| <= MAX_BANKS && AllFit(SELECTION.fits, v.selection)
    && |v.values| <= MAX_VALUES && AllFit(TPM2B.fits, v.values) && |PcrValueBytes(v)| <= 0x2000
  }

  lemma ReadDelivered(c: Crypto, dev: Device<Banks>, tpm: TpmState<Banks>, call: Call, v: PcrReadResult,
                      codes: seq<ErrorCode>, draw: Draw)
    requires call.code == CC_PCR_READ && dev.handleCount(call.code) == 0 == call.respHandles && call.handles == []
    requires |call.params| <= 0x2000 && ValuesFit(v) && FewWarnings(codes)
    requires dev.exec(tpm.device, false, call.code, call.handles, call.params)
          == (tpm.device, Done([], PcrValueBytes(v)))
    ensures var o := RunCall(c, Link(c, dev), Delivering(tpm, codes, draw), call, NoAuthView, []);
      o.state.tpm.device == tpm.device && o.result == Success(RawResponse([], PcrValueBytes(v)))
  {
    PlainDelivered(c, dev, tpm, NO_SESSION, call, codes, draw);
  }

  lemma ValuesRead(v: PcrReadResult)
    requires ValuesFit(v)
    ensures PcrReadFrom(Success(RawResponse([], PcrValueBytes(v)))) == Success(v)
  {
    PcrValuesInvert(v, []);
    assert PcrValueBytes(v) + [] == PcrValueBytes(v);
  }

  /** Reading over a transport that delivers: the caller gets the counter, the
      banks and the digests that the device reads for this selection. */
  lemma PcrReadReturns(c: Crypto, dev: Device<Banks>, tpm: TpmState<Banks>, selection: seq<PcrSelection>,
                       codes: seq<ErrorCode>, draw: Draw)
    requires dev == BankDevice(c) && Readable(selection) && FewWarnings(codes)
    ensures var o := RunCall(c, Link(c, dev), Delivering(tpm, codes, draw), PcrReadCall(selection), NoAuthView, []);
      && o.state.tpm.device == tpm.device
      && PcrReadFrom(o.result) == Success(ReadingOf(tpm.device, selection))
  {
    var v := ReadingOf(tpm.device, selection);
    ReadDone(c, tpm.device, selection);
    ReadingFits(tpm.device, selection);
    ReadDelivered(c, dev, tpm, PcrReadCall(selection), v, codes, draw);
    ValuesRead(v);
  }

  lemma {:induction false} PresentOne(d: Banks, p: PcrSelection, pcr: byte, k: u32)
    requires SelectsOne(p, p.hash, pcr) && k <= 8 * |p.select|
    ensures Present(d, p, k) == if k <= pcr && (p.hash, pcr as u32) in d.cells then [pcr as u32] else []
    decreases 8 * |p.select| - k
  {
    assert Selects(p.select, pcr);
    if k < 8 * |p.select| {
      PresentOne(d, p, pcr, k + 1);
    }
  }

  lemma ReadingOfOne(d: Banks, p: PcrSelection, bank: u16, pcr: byte)
    requires SelectsOne(p, bank, pcr)
    ensures ReadingOf(d, [p]).values == if (bank, pcr as u32) in d.cells then [d.cells[(bank, pcr as u32)]] else []
  {
    PresentOne(d, p, pcr, 0);
    var ks := FirstOf(Present(d, p, 0), MAX_VALUES);
    assert [p][1..] == [] && ReadCells(d, [], MAX_VALUES - |ks|) == ([], []);
    assert ReadingOf(d, [p]).values == seq(|ks|, i requires 0 <= i < |ks| => CellOf(d, bank, ks[i])) + [];
  }

  lemma OneOfReading(result: Result<RawResponse>, v: PcrReadResult)
    requires PcrReadFrom(result) == Success(v)
    ensures PcrOneFrom(result) == Success(if v.values == [] then None else Some(v.values[0]))
  {
  }

  /** Reading one PCR of one bank returns the digest in its cell, or nothing if the
      bank has no such cell. */
  lemma PcrReadOneReturns(c: Crypto, dev: Device<Banks>, tpm: TpmState<Banks>, p: PcrSelection, bank: u16, pcr: byte,
                          codes: seq<ErrorCode>, draw: Draw)
    requires dev == BankDevice(c) && SelectsOne(p, bank, pcr) && IsHash(bank) && FewWarnings(codes)
    ensures var o := RunCall(c, Link(c, dev), Delivering(tpm, codes, draw), PcrReadCall([p]), NoAuthView, []);
      && o.state.tpm.device == tpm.device
      && PcrOneFrom(o.result) == Success(if (bank, pcr as u32) in tpm.device.cells
                                         then Some(tpm.device.cells[(bank, pcr as u32)]) else None)
  {
    PcrReadReturns(c, dev, tpm, [p], codes, draw);
    ReadingOfOne(tpm.device, p, bank, pcr);
    var o := RunCall(c, Link(c, dev), Delivering(tpm, codes, draw), PcrReadCall([p]), NoAuthView, []);
    OneOfReading(o.result, ReadingOf(tpm.device, [p]));
  }
}
