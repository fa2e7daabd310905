/** Starting HMAC sessions and flushing handles. */
module SessionCommands {
  import opened Basics
  import opened Constants
  import opened Marshal
  import opened Codecs
  import opened Structures
  import opened CryptoCore
  import opened Sessions
  import opened Dispatcher
  import opened Frames
  import opened ReferenceTpm
  import opened Exchanges
  import opened LockStep
  import opened Delivery

  function StartBytes(alg: u16, nonceCaller: bytes): bytes {
    BufferBytes(nonceCaller) + (BufferBytes([]) + ([SE_HMAC] + (SymDefBytes(NO_CIPHER) + U16Bytes(alg))))
  }

  function StartCall(alg: u16, nonceCaller: bytes): Call {
    Call(CC_START_AUTH_SESSION, [RH_NULL, RH_NULL], [], StartBytes(alg, nonceCaller), 1)
  }

  /** The session that a reply to TPM2_StartAuthSession opens. */
  function Opened(c: Crypto, alg: u16, nonceCaller: bytes, result: Result<RawResponse>): Result<SessionState>
    requires result.Success? ==> |result.value.handles| == 1
  {
    var resp :- result;
    var nonceTpm :- ReadTpm2b(resp.params).ToResult();
    var key :- SessionKey(c, alg, nonceTpm, nonceCaller, [], []);
    Success(SessionState(resp.handles[0], alg, CONTINUE_SESSION, key, nonceTpm, nonceCaller, []))
  }

  /** The session object, or the error, that stands for r. */
  ghost predicate Holds(session: Result<Session>, r: Result<SessionState>)
    reads if session.Success? then {session.value} else {}
  {
    match session
    case Success(s) => r == Success(s.State())
    case Failure(e) => r == Failure(e)
  }

  method StartAuthSession<S>(tpm: Tpm<S>, alg: u16, nonceCaller: bytes) returns (r: Result<Session>)
    modifies tpm.transport
    ensures r.Success? ==> fresh(r.value)
    ensures |nonceCaller| > U16_MAX ==>
      && r == Failure(Malformed)
      && tpm.transport.state == old(tpm.transport.state) && tpm.transport.sent == old(tpm.transport.sent)
    ensures |nonceCaller| <= U16_MAX ==>
      var o := RunCall(tpm.c, tpm.transport.step, old(tpm.transport.state), StartCall(alg, nonceCaller),
                       NoAuthView, []);
      && tpm.Did(o, o.result, NoAuth, old(tpm.transport.sent))
      && (o.result.Success? ==> |o.result.value.handles| == 1)
      && Holds(r, Opened(tpm.c, alg, nonceCaller, o.result))
  {
    var p := new OutBuffer();
    var _ :- p.MarshalTpm2b(nonceCaller);
    var _ := p.MarshalTpm2b([]);
    p.Push(SE_HMAC);
    MarshalSymDef(NO_CIPHER, p);
    p.MarshalU16(alg);
    StartShape(p.data, alg, nonceCaller);
    HandlesAsAsked(tpm.c, tpm.transport.step, tpm.transport.state, StartCall(alg, nonceCaller), NoAuthView, []);
    var result := tpm.Run(Call(CC_START_AUTH_SESSION, [RH_NULL, RH_NULL], [], p.data, 1), NoAuth, []);
    r := OpenSession(tpm.c, alg, nonceCaller, result);
  }

  method OpenSession(c: Crypto, alg: u16, nonceCaller: bytes, result: Result<RawResponse>) returns (r: Result<Session>)
    requires result.Success? ==> |result.value.handles| == 1
    ensures r.Success? ==> fresh(r.value)
    ensures Holds(r, Opened(c, alg, nonceCaller, result))
  {
    var resp :- result;
    var reader := new Reader(resp.params);
    var nonceTpm :- reader.Tpm2b();
    r := Session.New(c, resp.handles[0], alg, nonceTpm, nonceCaller, CONTINUE_SESSION, [], [], []);
  }

  lemma StartShape(data: bytes, alg: u16, nonceCaller: bytes)
    requires data
      == [] + BufferBytes(nonceCaller) + BufferBytes([]) + [SE_HMAC] + SymDefBytes(NO_CIPHER) + U16Bytes(alg)
    ensures data == StartBytes(alg, nonceCaller)
  {
  }

  /** Draws the first nonceCaller from the random source. */
  method StartHmacSession<S>(tpm: Tpm<S>, alg: u16, entropy: bytes) returns (r: Result<Session>)
    requires IsHash(alg) ==> |entropy| == SizeOf(alg)
    modifies tpm.transport
    ensures r.Success? ==> fresh(r.value)
    ensures !IsHash(alg) ==>
      && r == Failure(Usage)
      && tpm.transport.state == old(tpm.transport.state) && tpm.transport.sent == old(tpm.transport.sent)
    ensures IsHash(alg) ==>
      var o := RunCall(tpm.c, tpm.transport.step, old(tpm.transport.state), StartCall(alg, entropy), NoAuthView, []);
      && tpm.Did(o, o.result, NoAuth, old(tpm.transport.sent))
      && (o.result.Success? ==> |o.result.value.handles| == 1)
      && Holds(r, Opened(tpm.c, alg, entropy, o.result))
  {
    var n :- DigestSize(alg);
    assert entropy[..n] == entropy;
    r := StartAuthSession(tpm, alg, entropy[..n]);
  }

  function FlushCall(handle: u32): Call {
    Call(CC_FLUSH_CONTEXT, [], [], U32Bytes(handle), 0)
  }

  method FlushContext<S>(tpm: Tpm<S>, handle: u32) returns (r: Result<()>)
    modifies tpm.transport
    ensures var o := RunCall(tpm.c, tpm.transport.step, old(tpm.transport.state), FlushCall(handle), NoAuthView, []);
      && tpm.Did(o, o.result, NoAuth, old(tpm.transport.sent))
      && r == if o.result.Success? then Success(()) else Failure(o.result.error)
  {
    var p := new OutBuffer();
    p.MarshalU32(handle);
    assert p.data == U32Bytes(handle);
    var _ :- tpm.Run(Call(CC_FLUSH_CONTEXT, [], [], p.data, 0), NoAuth, []);
    return Success(());
  }

  // ---------- a session is established ----------

  lemma ReadStartInverts(alg: u16, nonceCaller: bytes)
    requires |nonceCaller| <= U16_MAX
    ensures ReadStart(StartBytes(alg, nonceCaller))
         == Parsed(StartParams(nonceCaller, [], SE_HMAC, NO_CIPHER, alg), [])
  {
    var t3 := U16Bytes(alg);
    var t2 := [SE_HMAC] + (SymDefBytes(NO_CIPHER) + t3);
    var t1 := BufferBytes([]) + t2;
    ReadTpm2bInverts(nonceCaller, t1);
    ReadTpm2bInverts([], t2);
    ReadBytesInverts([SE_HMAC], SymDefBytes(NO_CIPHER) + t3);
    SymDefExact();
    assert Inverts(SYM_DEF, NO_CIPHER, t3);
    ReadU16Inverts(alg, []);
    assert t3 + [] == t3;
  }

  function StartFrame(alg: u16, nonceCaller: bytes): bytes {
    Frame(StartCall(alg, nonceCaller), None)
  }

  /** The TPM after starting this session. */
  function WithSession<D>(tpm: TpmState<D>, alg: u16, draw: Draw): TpmState<D> {
    tpm.(sessions := tpm.sessions[draw.handle := TpmSession(alg, [], [], draw.nonce)])
  }

  predicate CanStart<D>(tpm: TpmState<D>, alg: u16, nonceCaller: bytes, draw: Draw) {
    IsHash(alg) && 16 <= |nonceCaller| <= SizeOf(alg) && draw.handle !in tpm.sessions && draw.handle != RS_PW
  }

  function StartCommand(alg: u16, nonceCaller: bytes): Command {
    Command(CC_START_AUTH_SESSION, [RH_NULL, RH_NULL], None, StartBytes(alg, nonceCaller))
  }

  lemma StartFrameRead(handleCount: u32 -> nat, alg: u16, nonceCaller: bytes)
    requires |nonceCaller| <= U16_MAX && handleCount(CC_START_AUTH_SESSION) == 2
    ensures ReadCommand(handleCount, StartFrame(alg, nonceCaller)) == Parsed(StartCommand(alg, nonceCaller), [])
  {
    assert |SymDefBytes(NO_CIPHER)| == 2;
    CallRoundTrip(handleCount, StartCall(alg, nonceCaller), None);
  }

  lemma StartCommandServed<D>(tpm: TpmState<D>, alg: u16, nonceCaller: bytes, draw: Draw)
    requires |nonceCaller| <= U16_MAX
    ensures StartSession(tpm, StartCommand(alg, nonceCaller), draw)
         == if CanStart(tpm, alg, nonceCaller, draw)
            then Served(WithSession(tpm, alg, draw), ReplyFrame([draw.handle], BufferBytes(draw.nonce), None, []))
            else Served(tpm, ErrorFrame(RC_VALUE))
  {
    ReadStartInverts(alg, nonceCaller);
  }

  /** The TPM reads the request as the host meant it. */
  lemma StartServed<D>(c: Crypto, dev: Device<D>, tpm: TpmState<D>, alg: u16, nonceCaller: bytes, draw: Draw)
    requires |nonceCaller| <= U16_MAX && dev.handleCount(CC_START_AUTH_SESSION) == 2
    ensures Serve(c, dev, tpm, StartFrame(alg, nonceCaller), draw)
         == if CanStart(tpm, alg, nonceCaller, draw)
            then Served(WithSession(tpm, alg, draw), ReplyFrame([draw.handle], BufferBytes(draw.nonce), None, []))
            else Served(tpm, ErrorFrame(RC_VALUE))
  {
    StartFrameRead(dev.handleCount, alg, nonceCaller);
    StartCommandServed(tpm, alg, nonceCaller, draw);
  }

  lemma StartReply(c: Crypto, alg: u16, nonceCaller: bytes, draw: Draw)
    requires IsHash(alg)
    ensures var r := ParseResponse(c, StartCall(alg, nonceCaller),
                                   ReplyFrame([draw.handle], BufferBytes(draw.nonce), None, []), NoAuthView).0;
      && r.Success? && |r.value.handles| == 1
      && Opened(c, alg, nonceCaller, r)
         == Success(SessionState(draw.handle, alg, CONTINUE_SESSION, [], draw.nonce, nonceCaller, []))
  {
    HandleBytesLength([draw.handle]);
    ReplyRoundTrip([draw.handle], BufferBytes(draw.nonce), None, []);
    ReadTpm2bInverts(draw.nonce, []);
    assert BufferBytes(draw.nonce) + [] == BufferBytes(draw.nonce);
  }

  /** Host and TPM agree on a new session, and nothing else has changed. */
  ghost predicate Established<D>(tpm: TpmState<D>, after: TpmState<D>, alg: u16, s: SessionState, draw: Draw) {
    && InStep(s, after) && s.handle == draw.handle && s.alg == alg
    && draw.handle !in tpm.sessions && after == WithSession(tpm, alg, draw)
  }

  /** A nonceCaller of allowed length and a transport that delivers: the session
      starts, and the two ends are in step from the beginning. */
  lemma SessionEstablished<D(!new)>(c: Crypto, dev: Device<D>, tpm: TpmState<D>, alg: u16, nonceCaller: bytes,
                                    codes: seq<ErrorCode>, draw: Draw)
    requires dev.handleCount(CC_START_AUTH_SESSION) == 2 && FewWarnings(codes)
    requires CanStart(tpm, alg, nonceCaller, draw)
    ensures var o := RunCall(c, Link(c, dev), Delivering(tpm, codes, draw), StartCall(alg, nonceCaller),
                             NoAuthView, []);
      && o.result.Success? && |o.result.value.handles| == 1
      && var s := Opened(c, alg, nonceCaller, o.result);
         s.Success? && Established(tpm, o.state.tpm, alg, s.value, draw)
  {
    StartServed(c, dev, tpm, alg, nonceCaller, draw);
    StartReply(c, alg, nonceCaller, draw);
    DeliveredExactly(c, dev, tpm, StartCall(alg, nonceCaller), NoAuthView, [], NoAuthView, None, codes, draw);
  }

  lemma OpenedByReply<D>(c: Crypto, dev: Device<D>, tpm: TpmState<D>, alg: u16, nonceCaller: bytes,
                         o: Outcome<World<D>>, draw: Draw)
    requires dev.handleCount(CC_START_AUTH_SESSION) == 2 && |nonceCaller| <= U16_MAX
    requires ServedWith(c, dev, tpm, StartCall(alg, nonceCaller), StartFrame(alg, nonceCaller), NoAuthView, o, draw)
    requires o.result.Success? && |o.result.value.handles| == 1
    ensures var s := Opened(c, alg, nonceCaller, o.result);
      s.Success? && Established(tpm, o.state.tpm, alg, s.value, draw)
  {
    StartServed(c, dev, tpm, alg, nonceCaller, draw);
    if CanStart(tpm, alg, nonceCaller, draw) {
      StartReply(c, alg, nonceCaller, draw);
    } else {
      ErrorRoundTrip(1, RC_VALUE);
      assert false;
    }
  }

  /** Over any honest transport, a session that opens is in step. */
  lemma OpenedInStep<D(!new)>(c: Crypto, dev: Device<D>, w: World<D>, alg: u16, nonceCaller: bytes)
    requires dev.handleCount(CC_START_AUTH_SESSION) == 2 && Honest(w.schedule)
    requires |nonceCaller| <= U16_MAX
    ensures var o := RunCall(c, Link(c, dev), w, StartCall(alg, nonceCaller), NoAuthView, []);
      && (o.result.Success? ==> |o.result.value.handles| == 1)
      && (o.result.Success? ==>
            var s := Opened(c, alg, nonceCaller, o.result);
            s.Success? && exists draw :: Established(w.tpm, o.state.tpm, alg, s.value, draw))
  {
    var call := StartCall(alg, nonceCaller);
    var o := RunCall(c, Link(c, dev), w, call, NoAuthView, []);
    HandlesAsAsked(c, Link(c, dev), w, call, NoAuthView, []);
    if o.result.Success? {
      CallServedAtMostOnce(c, dev, w, call, NoAuthView, [], NoAuthView, None);
      var draw :| ServedWith(c, dev, w.tpm, call, Frame(call, None), NoAuthView, o, draw);
      OpenedByReply(c, dev, w.tpm, alg, nonceCaller, o, draw);
      assert Established(w.tpm, o.state.tpm, alg, Opened(c, alg, nonceCaller, o.result).value, draw);
    }
  }

  // ---------- a session is flushed ----------

  lemma FlushServed<D>(c: Crypto, dev: Device<D>, tpm: TpmState<D>, handle: u32, draw: Draw)
    requires dev.handleCount(CC_FLUSH_CONTEXT) == 0 && handle in tpm.sessions
    ensures Serve(c, dev, tpm, Frame(FlushCall(handle), None), draw)
         == Served(tpm.(sessions := tpm.sessions - {handle}), ReplyFrame([], [], None, []))
  {
    CallRoundTrip(dev.handleCount, FlushCall(handle), None);
    ReadU32Inverts(handle, []);
    assert U32Bytes(handle) + [] == U32Bytes(handle);
  }

  /** Flushing a session ends it and no other, and changes nothing else. */
  lemma SessionFlushed<D(!new)>(c: Crypto, dev: Device<D>, tpm: TpmState<D>, handle: u32, codes: seq<ErrorCode>,
                                draw: Draw)
    requires dev.handleCount(CC_FLUSH_CONTEXT) == 0 && handle in tpm.sessions && FewWarnings(codes)
    ensures var o := RunCall(c, Link(c, dev), Delivering(tpm, codes, draw), FlushCall(handle), NoAuthView, []);
      o.result == Success(RawResponse([], [])) && o.state.tpm == tpm.(sessions := tpm.sessions - {handle})
  {
    FlushServed(c, dev, tpm, handle, draw);
    ReplyRoundTrip([], [], None, []);
    DeliveredExactly(c, dev, tpm, FlushCall(handle), NoAuthView, [], NoAuthView, None, codes, draw);
  }
}
