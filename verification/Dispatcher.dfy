/**
 The command dispatcher: lays out a request frame, exchanges it with the TPM
 (resubmitting on transient warnings), unframes the reply and checks the
 session HMAC.

 A transport is any state with any step function, so whatever a device, a
 simulator or a hostile bus may answer is some transport here.
 */
module Dispatcher {
  import opened Basics
  import opened Constants
  import opened Marshal
  import opened Codecs
  import opened CryptoCore
  import opened Sessions
  import opened ResponseCodes

  const MAX_TRANSIENT_RETRIES: nat := 12

  // ---------- the transport ----------

  type Step<!S> = (S, bytes) -> (S, Result<bytes>)

  class Transport<!S> {
    var state: S
    const step: Step<S>
    ghost var sent: seq<bytes>

    constructor (state: S, step: Step<S>)
      ensures this.state == state && this.step == step && sent == []
    {
      this.state, this.step, sent := state, step, [];
    }

    method Transmit(frame: bytes) returns (r: Result<bytes>)
      modifies this
      ensures (state, r) == step(old(state), frame)
      ensures sent == old(sent) + [frame]
    {
      var next := step(state, frame);
      state, r := next.0, next.1;
      sent := sent + [frame];
    }
  }

  // ---------- what a call is ----------

  /** One command: its code, the handles and their Names, the parameter bytes
      and how many handles the response carries. */
  datatype Call = Call(code: u32, handles: seq<u32>, names: seq<bytes>, params: bytes, respHandles: nat) {
    /** The Name of the object being authorized. */
    function ObjectName(): bytes {
      if names == [] then [] else names[0]
    }
  }

  datatype RawResponse = RawResponse(handles: seq<u32>, params: bytes)

  datatype Auth =
    | NoAuth
    | Password(pw: bytes)
    | HmacSession(session: Session, authValue: bytes)

  /** An authorization with the session's fields in place of the session. */
  datatype AuthView =
    | NoAuthView
    | PasswordView(pw: bytes)
    | SessionView(session: SessionState, authValue: bytes)

  function Footprint(auth: Auth): set<object> {
    if auth.HmacSession? then {auth.session} else {}
  }

  ghost function View(auth: Auth): AuthView
    reads Footprint(auth)
  {
    match auth
    case NoAuth => NoAuthView
    case Password(pw) => PasswordView(pw)
    case HmacSession(session, authValue) => SessionView(session.State(), authValue)
  }

  // ---------- request frames ----------

  function HandleBytes(handles: seq<u32>): bytes {
    ListBytes(U32Bytes, handles)
  }

  function CpInput(code: u32, names: seq<bytes>, params: bytes): bytes {
    U32Bytes(code) + Flatten(names) + params
  }

  function RpInput(rc: u32, code: u32, params: bytes): bytes {
    U32Bytes(rc) + U32Bytes(code) + params
  }

  function EntryBytes(e: AuthCommand): bytes {
    U32Bytes(e.handle) + (BufferBytes(e.nonceCaller) + ([e.attributes] + BufferBytes(e.hmac)))
  }

  function Body(call: Call, area: Option<bytes>): bytes {
    HandleBytes(call.handles)
    + (if area.Some? then U32Bytes(LowU32(|area.value|)) + area.value else [])
    + call.params
  }

  /** The whole frame.  The size field is the 32-bit sum, wrapping as the
      release build does. */
  function Frame(call: Call, area: Option<bytes>): bytes {
    var body := Body(call, area);
    U16Bytes(if area.Some? then ST_SESSIONS else ST_NO_SESSIONS)
    + (U32Bytes(LowU32(10 + LowU32(|body|))) + (U32Bytes(call.code) + body))
  }

  function SignedSession(s: SessionState, nonce: bytes): SessionState {
    s.(nonceCaller := nonce)
  }

  function SessionEntry(c: Crypto, call: Call, s: SessionState, authValue: bytes): AuthCommand {
    SignedEntry(c, s, c.hash(s.alg, CpInput(call.code, call.names, call.params)), authValue, call.ObjectName())
  }

  /** The authorization area, and the authorization after signing. */
  function Authorize(c: Crypto, call: Call, auth: AuthView, entropy: bytes): Result<(AuthView, Option<bytes>)> {
    match auth
    case NoAuthView => Success((auth, None))
    case PasswordView(pw) =>
      if |pw| > U16_MAX then Failure(Usage)
      else Success((auth, Some(EntryBytes(AuthCommand(RS_PW, [], CONTINUE_SESSION, pw)))))
    case SessionView(s, authValue) =>
      if !IsHash(s.alg) then Failure(Usage)
      else
        var s' := SignedSession(s, entropy);
        Success((SessionView(s', authValue), Some(EntryBytes(SessionEntry(c, call, s', authValue)))))
  }

  // ---------- reply frames ----------

  datatype Reply = Reply(tag: u16, handles: seq<u32>, params: bytes, auth: Option<AuthResponse>)

  function ResponseEntryBytes(a: AuthResponse): bytes {
    BufferBytes(a.nonceTpm) + ([a.attributes] + BufferBytes(a.hmac))
  }

  function ReadAuthResponse(s: bytes): Parsed<AuthResponse> {
    var (nonceTpm, s) :- ReadTpm2b(s);
    var (attributes, s) :- ReadU8(s);
    var (hmac, s) :- ReadTpm2b(s);
    Parsed(AuthResponse(nonceTpm, attributes, hmac), s)
  }

  datatype ReplyHeader = ReplyHeader(tag: u16, size: u32, rc: u32)

  function ReadReplyHeader(s: bytes): Parsed<ReplyHeader> {
    var (tag, s) :- ReadU16(s);
    var (size, s) :- ReadU32(s);
    var (rc, s) :- ReadU32(s);
    Parsed(ReplyHeader(tag, size, rc), s)
  }

  /** The sized parameters and the first response authorization entry; bytes
      after that entry are not looked at. */
  function ReadAuthorized(s: bytes): Parsed<(bytes, AuthResponse)> {
    var (size, s) :- ReadU32(s);
    var (params, s) :- ReadBytes(size, s);
    var (auth, s) :- ReadAuthResponse(s);
    Parsed((params, auth), s)
  }

  /** What follows the response code of a successful reply. */
  function ReadReplyBody(tag: u16, respHandles: nat, s: bytes): Parsed<Reply> {
    var (handles, s) :- ReadMany(ReadU32, respHandles, s);
    if tag == ST_SESSIONS then
      var (body, s) :- ReadAuthorized(s);
      Parsed(Reply(tag, handles, body.0, Some(body.1)), s)
    else Parsed(Reply(tag, handles, s, None), [])
  }

  /** The response code is looked at before the size field is. */
  function ReadAfterHeader(header: ReplyHeader, total: nat, respHandles: nat, s: bytes): Parsed<Reply> {
    if header.rc != 0 then Stuck(Error.Code(header.rc), s)
    else if header.size != total then Stuck(Protocol, s)
    else ReadReplyBody(header.tag, respHandles, s)
  }

  function ReadReply(respHandles: nat, reply: bytes): Parsed<Reply> {
    var (header, s) :- ReadReplyHeader(reply);
    ReadAfterHeader(header, |reply|, respHandles, s)
  }

  /** Checks the reply's authorization, if a session signed the command and the
      reply carries one. */
  function Accept(c: Crypto, call: Call, reply: Reply, auth: AuthView): Result<AuthView> {
    if auth.SessionView? && reply.auth.Some? then
      if !IsHash(auth.session.alg) then Failure(Usage)
      else
        var rp := c.hash(auth.session.alg, RpInput(0, call.code, reply.params));
        var s :- Checked(c, auth.session, rp, auth.authValue, call.ObjectName(), reply.auth.value);
        Success(SessionView(s, auth.authValue))
    else Success(auth)
  }

  /** The result of one reply and the authorization after it. */
  function ParseResponse(c: Crypto, call: Call, resp: bytes, auth: AuthView): (Result<RawResponse>, AuthView) {
    match ReadReply(call.respHandles, resp)
    case Stuck(e, _) => (Failure(e), auth)
    case Parsed(reply, _) =>
      match Accept(c, call, reply, auth)
      case Failure(e) => (Failure(e), auth)
      case Success(auth') => (Success(RawResponse(reply.handles, reply.params)), auth')
  }

  predicate TransientFailure(r: Result<RawResponse>) {
    r.Failure? && r.error.Code? && IsTransient(r.error.rc)
  }

  /** How a reply is judged: the result it stands for, the authorization after
      it, and whether it asks to resubmit.  The retry loop is specified for any
      judge. */
  datatype Verdict = Verdict(result: Result<RawResponse>, auth: AuthView, again: bool)
  type Judge = (bytes, AuthView) -> Verdict

  function Judged(c: Crypto, call: Call, resp: bytes, auth: AuthView): Verdict {
    var (r, auth') := ParseResponse(c, call, resp, auth);
    Verdict(r, auth', TransientFailure(r))
  }

  function Judging(c: Crypto, call: Call): Judge {
    (resp: bytes, auth: AuthView) => Judged(c, call, resp, auth)
  }

  ghost predicate Judges(judge: Judge, c: Crypto, call: Call) {
    forall resp, auth {:trigger Judged(c, call, resp, auth)} ::
      judge(resp, auth) == Judged(c, call, resp, auth)
  }

  // ---------- the exchange ----------

  /** Everything a run leaves behind: the transport, the authorization, the
      result, the frames that went out and what the last one brought back. */
  datatype Outcome<S> = Outcome(
    state: S, auth: AuthView, result: Result<RawResponse>, sent: seq<bytes>, last: Result<bytes>)

  /** Submits the frame; sent are the frames that went out before. */
  function Exchange<S>(step: Step<S>, judge: Judge, state: S, frame: bytes, auth: AuthView,
                       attempt: nat, sent: seq<bytes>): Outcome<S>
    requires attempt <= MAX_TRANSIENT_RETRIES
    decreases MAX_TRANSIENT_RETRIES - attempt
  {
    var (state, reply) := step(state, frame);
    var sent := sent + [frame];
    if reply.Failure? then Outcome(state, auth, Failure(reply.error), sent, reply)
    else
      var v := judge(reply.value, auth);
      if v.again && attempt < MAX_TRANSIENT_RETRIES
      then Exchange(step, judge, state, frame, v.auth, attempt + 1, sent)
      else Outcome(state, v.auth, v.result, sent, reply)
  }

  lemma ExchangeAgain<S>(step: Step<S>, judge: Judge, state: S, frame: bytes, auth: AuthView, attempt: nat,
                         sent: seq<bytes>, state': S, auth': AuthView, sent': seq<bytes>)
    requires attempt < MAX_TRANSIENT_RETRIES
    requires var (next, reply) := step(state, frame);
      && next == state' && reply.Success?
      && judge(reply.value, auth).again && judge(reply.value, auth).auth == auth'
    requires sent' == sent + [frame]
    ensures Exchange(step, judge, state, frame, auth, attempt, sent)
         == Exchange(step, judge, state', frame, auth', attempt + 1, sent')
  {
  }

  lemma ExchangeLost<S>(step: Step<S>, judge: Judge, state: S, frame: bytes, auth: AuthView, attempt: nat,
                        sent: seq<bytes>, state': S, e: Error)
    requires attempt <= MAX_TRANSIENT_RETRIES
    requires step(state, frame) == (state', Failure(e))
    ensures Exchange(step, judge, state, frame, auth, attempt, sent)
         == Outcome(state', auth, Failure(e), sent + [frame], Failure(e))
  {
  }

  lemma ExchangeStops<S>(step: Step<S>, judge: Judge, state: S, frame: bytes, auth: AuthView, attempt: nat,
                         sent: seq<bytes>, state': S, resp: bytes)
    requires attempt <= MAX_TRANSIENT_RETRIES
    requires step(state, frame) == (state', Success(resp))
    requires !judge(resp, auth).again || attempt == MAX_TRANSIENT_RETRIES
    ensures var v := judge(resp, auth);
      Exchange(step, judge, state, frame, auth, attempt, sent)
      == Outcome(state', v.auth, v.result, sent + [frame], Success(resp))
  {
  }

  function RunCall<S>(c: Crypto, step: Step<S>, state: S, call: Call, auth: AuthView, entropy: bytes): Outcome<S> {
    match Authorize(c, call, auth, entropy)
    case Failure(e) => Outcome(state, auth, Failure(e), [], Failure(e))
    case Success((auth', area)) => Exchange(step, Judging(c, call), state, Frame(call, area), auth', 0, [])
  }

  /** What the random source owes a session: a nonce of the digest length. */
  ghost predicate EnoughEntropy(auth: AuthView, entropy: bytes) {
    auth.SessionView? && IsHash(auth.session.alg) ==> |entropy| == SizeOf(auth.session.alg)
  }

  // ---------- the dispatcher itself ----------

  class Tpm<!S> {
    const c: Crypto
    const transport: Transport<S>

    constructor (c: Crypto, transport: Transport<S>)
      ensures this.c == c && this.transport == transport
    {
      this.c, this.transport := c, transport;
    }

    /** The method did exactly what the outcome o says, after earlier frames. */
    ghost predicate Did(o: Outcome<S>, r: Result<RawResponse>, auth: Auth, earlier: seq<bytes>)
      reads transport, Footprint(auth)
    {
      && r == o.result
      && transport.state == o.state
      && View(auth) == o.auth
      && transport.sent == earlier + o.sent
    }

    method Run(call: Call, auth: Auth, entropy: bytes) returns (r: Result<RawResponse>)
      requires EnoughEntropy(View(auth), entropy)
      modifies transport, Footprint(auth)
      ensures Did(RunCall(c, transport.step, old(transport.state), call, old(View(auth)), entropy),
                  r, auth, old(transport.sent))
    {
      var area: Option<bytes> := None;
      if !auth.NoAuth? {
        var built := BuildArea(call, auth, entropy);
        if built.Failure? {
          assert transport.sent + [] == transport.sent;
          return Failure(built.error);
        }
        area := Some(built.value);
      }
      var frame := BuildFrame(call, area);
      r := Submit(frame, call, auth, Judging(c, call));
    }

    /** Sends the fixed frame, again and again while the reply is a transient
        warning and retries remain. */
    method Submit(frame: bytes, call: Call, auth: Auth, ghost judge: Judge) returns (r: Result<RawResponse>)
      requires Judges(judge, c, call)
      modifies transport, Footprint(auth)
      ensures Did(Exchange(transport.step, judge, old(transport.state), frame, old(View(auth)), 0, []),
                  r, auth, old(transport.sent))
    {
      var attempt := 0;
      ghost var goal := Exchange(transport.step, judge, transport.state, frame, View(auth), 0, []);
      ghost var earlier, out := transport.sent, [];
      assert transport.sent == earlier + out;
      while true
        invariant attempt <= MAX_TRANSIENT_RETRIES
        invariant goal == Exchange(transport.step, judge, transport.state, frame, View(auth), attempt, out)
        invariant transport.sent == earlier + out
        decreases MAX_TRANSIENT_RETRIES - attempt
      {
        ghost var state, view, before := transport.state, View(auth), out;
        ghost var reply := transport.step(state, frame).1;
        out := out + [frame];
        assert earlier + before + [frame] == earlier + out;
        var again;
        r, again := Attempt(frame, call, auth, judge);
        if again && attempt < MAX_TRANSIENT_RETRIES {
          ExchangeAgain(transport.step, judge, state, frame, view, attempt, before,
                        transport.state, View(auth), out);
          attempt := attempt + 1;
        } else {
          if reply.Failure? {
            ExchangeLost(transport.step, judge, state, frame, view, attempt, before, transport.state, reply.error);
          } else {
            ExchangeStops(transport.step, judge, state, frame, view, attempt, before, transport.state, reply.value);
          }
          return r;
        }
      }
    }

    /** One transmission and the judgement of what it brought back. */
    method Attempt(frame: bytes, call: Call, auth: Auth, ghost judge: Judge)
      returns (r: Result<RawResponse>, again: bool)
      requires Judges(judge, c, call)
      modifies transport, Footprint(auth)
      ensures var (state, reply) := transport.step(old(transport.state), frame);
        && transport.state == state
        && transport.sent == old(transport.sent) + [frame]
        && match reply
           case Failure(e) => !again && r == Failure(e) && View(auth) == old(View(auth))
           case Success(resp) => judge(resp, old(View(auth))) == Verdict(r, View(auth), again)
    {
      var resp := transport.Transmit(frame);
      if resp.Failure? {
        return Failure(resp.error), false;
      }
      r := ParseReply(call, resp.value, auth, judge);
      again := TransientFailure(r);
    }

    /** Builds the authorization area, signing with the session if there is one. */
    method BuildArea(call: Call, auth: Auth, entropy: bytes) returns (r: Result<bytes>)
      requires !auth.NoAuth? && EnoughEntropy(View(auth), entropy)
      modifies Footprint(auth)
      ensures var authorized := Authorize(c, call, old(View(auth)), entropy);
        match authorized
        case Success((auth', area)) => area == r.ToOption() && View(auth) == auth'
        case Failure(e) => r == Failure(e) && View(auth) == old(View(auth))
    {
      var area := new OutBuffer();
      match auth {
        case Password(pw) =>
          area.MarshalU32(RS_PW);
          var _ := area.MarshalTpm2b([]);
          area.Push(CONTINUE_SESSION);
          var fits := area.MarshalTpm2b(pw);
          if fits.Failure? {
            return Failure(Usage);
          }
          Regroup(U32Bytes(RS_PW), BufferBytes([]), [CONTINUE_SESSION], BufferBytes(pw));
        case HmacSession(session, authValue) =>
          var name := if call.names == [] then [] else call.names[0];
          var cp :- CpHash(session.alg, call.code, call.names, call.params);
          // With a cpHash in hand the algorithm is a hash: neither step can fail.
          var nonce := session.FreshNonce(entropy);
          var signed := session.CommandAuth(c, cp, authValue, name, nonce.value);
          var ac := signed.value;
          area.MarshalU32(ac.handle);
          var _ := area.MarshalTpm2b(ac.nonceCaller);
          area.Push(ac.attributes);
          var _ := area.MarshalTpm2b(ac.hmac);
          Regroup(U32Bytes(ac.handle), BufferBytes(ac.nonceCaller), [ac.attributes], BufferBytes(ac.hmac));
      }
      return Success(area.data);
    }

    lemma Regroup(a: bytes, b: bytes, d: bytes, e: bytes)
      ensures [] + a + b + d + e == a + (b + (d + e))
    {
    }

    method CpHash(alg: u16, code: u32, names: seq<bytes>, params: bytes) returns (r: Result<bytes>)
      ensures r == Hash(c, alg, CpInput(code, names, params))
    {
      var parts := [U32Bytes(code)] + names + [params];
      FlattenAround(U32Bytes(code), names, params);
      r := HashParts(c, alg, parts);
    }

    method RpHash(alg: u16, rc: u32, code: u32, params: bytes) returns (r: Result<bytes>)
      ensures r == Hash(c, alg, RpInput(rc, code, params))
    {
      Flatten6(U32Bytes(rc), U32Bytes(code), params, [], [], []);
      r := HashParts(c, alg, [U32Bytes(rc), U32Bytes(code), params]);
    }

    /** Lays the handles, the authorization area and the parameters into a frame. */
    method BuildFrame(call: Call, area: Option<bytes>) returns (frame: bytes)
      ensures frame == Frame(call, area)
    {
      var body := new OutBuffer();
      ghost var goal := HandleBytes(call.handles);
      for i := 0 to |call.handles|
        invariant goal == body.data + HandleBytes(call.handles[i..])
      {
        ListBytesStep(U32Bytes, call.handles, i, body.data);
        body.MarshalU32(call.handles[i]);
      }
      assert body.data + [] == body.data;
      assert body.data == HandleBytes(call.handles);
      if area.Some? {
        body.MarshalU32(LowU32(|area.value|));
        body.Extend(area.value);
        assert body.data == HandleBytes(call.handles) + (U32Bytes(LowU32(|area.value|)) + area.value);
      } else {
        assert body.data == HandleBytes(call.handles) + [];
      }
      body.Extend(call.params);
      ghost var laidOut := Body(call, area);
      assert body.data == laidOut;
      frame := AddHeader(if area.Some? then ST_SESSIONS else ST_NO_SESSIONS, call.code, body.data);
    }

    method AddHeader(tag: u16, code: u32, body: bytes) returns (frame: bytes)
      ensures frame == U16Bytes(tag) + (U32Bytes(LowU32(10 + LowU32(|body|))) + (U32Bytes(code) + body))
    {
      var out := new OutBuffer();
      out.MarshalU16(tag);
      out.MarshalU32(LowU32(10 + LowU32(|body|)));
      out.MarshalU32(code);
      out.Extend(body);
      Regroup(U16Bytes(tag), U32Bytes(LowU32(10 + LowU32(|body|))), U32Bytes(code), body);
      return out.data;
    }

    method ParseReply(call: Call, resp: bytes, auth: Auth, ghost judge: Judge) returns (r: Result<RawResponse>)
      requires Judges(judge, c, call)
      modifies Footprint(auth)
      ensures judge(resp, old(View(auth))) == Verdict(r, View(auth), TransientFailure(r))
    {
      ghost var judged := Judged(c, call, resp, View(auth));
      var reply :- Unframe(call.respHandles, resp);
      if auth.HmacSession? && reply.auth.Some? {
        var name := if call.names == [] then [] else call.names[0];
        var rp :- RpHash(auth.session.alg, 0, call.code, reply.params);
        var _ :- auth.session.VerifyResponse(c, rp, auth.authValue, name, reply.auth.value);
      }
      return Success(RawResponse(reply.handles, reply.params));
    }

    /** Takes a reply apart, before any of it is believed. */
    method Unframe(respHandles: nat, resp: bytes) returns (r: Result<Reply>)
      ensures r == ReadReply(respHandles, resp).ToResult()
    {
      var reader := new Reader(resp);
      ghost var goal := ReadReplyHeader(resp);
      var header := UnframeHeader(reader);
      if header.Failure? {
        return Failure(header.error);
      }
      r := UnframeAfterHeader(header.value, |resp|, respHandles, reader);
    }

    method UnframeAfterHeader(header: ReplyHeader, total: nat, respHandles: nat, reader: Reader)
      returns (r: Result<Reply>)
      requires reader.Valid()
      modifies reader
      ensures reader.Valid()
      ensures r == ReadAfterHeader(header, total, respHandles, old(reader.Unread())).ToResult()
    {
      if header.rc != 0 {
        return Failure(Error.Code(header.rc));
      }
      if header.size != total {
        return Failure(Protocol);
      }
      r := UnframeBody(header.tag, respHandles, reader);
    }

    method UnframeBody(tag: u16, respHandles: nat, reader: Reader) returns (r: Result<Reply>)
      requires reader.Valid()
      modifies reader
      ensures reader.Yields(ReadReplyBody(tag, respHandles, old(reader.Unread())), r)
    {
      ghost var goal := ReadReplyBody(tag, respHandles, reader.Unread());
      var handles :- ReadHandles(reader, respHandles);
      if tag == ST_SESSIONS {
        var body :- UnframeAuthorized(reader);
        return Success(Reply(tag, handles, body.0, Some(body.1)));
      }
      ghost var rest := reader.Unread();
      var params := reader.Take(reader.Remaining());
      assert rest[..|rest|] == rest;
      return Success(Reply(tag, handles, params.value, None));
    }

    method UnframeHeader(reader: Reader) returns (r: Result<ReplyHeader>)
      requires reader.Valid()
      modifies reader
      ensures reader.Yields(ReadReplyHeader(old(reader.Unread())), r)
    {
      ghost var goal := ReadReplyHeader(reader.Unread());
      var tag :- reader.U16();
      var size :- reader.U32();
      var rc :- reader.U32();
      return Success(ReplyHeader(tag, size, rc));
    }

    method UnframeAuthorized(reader: Reader) returns (r: Result<(bytes, AuthResponse)>)
      requires reader.Valid()
      modifies reader
      ensures reader.Yields(ReadAuthorized(old(reader.Unread())), r)
    {
      ghost var goal := ReadAuthorized(reader.Unread());
      var paramSize :- reader.U32();
      var params :- reader.Take(paramSize);
      var entry :- ParseAuthResponse(reader);
      return Success((params, entry));
    }

    method ReadHandles(reader: Reader, n: nat) returns (r: Result<seq<u32>>)
      requires reader.Valid()
      modifies reader
      ensures reader.Yields(ReadMany(ReadU32, n, old(reader.Unread())), r)
    {
      var handles: seq<u32> := [];
      ghost var goal := ReadMany(ReadU32, n, reader.Unread());
      for i := 0 to n
        invariant reader.Valid()
        invariant goal == Prepend(handles, ReadMany(ReadU32, n - i, reader.Unread()))
      {
        PrependStep(ReadU32, handles, n - i, reader.Unread());
        var h :- reader.U32();
        handles := handles + [h];
      }
      return Success(handles);
    }

    method ParseAuthResponse(reader: Reader) returns (r: Result<AuthResponse>)
      requires reader.Valid()
      modifies reader
      ensures reader.Yields(ReadAuthResponse(old(reader.Unread())), r)
    {
      var nonceTpm :- reader.Tpm2b();
      var attributes :- reader.U8();
      var hmac :- reader.Tpm2b();
      return Success(AuthResponse(nonceTpm, attributes, hmac));
    }
  }

  lemma {:induction false} FlattenAround(a: bytes, names: seq<bytes>, b: bytes)
    ensures Flatten([a] + names + [b]) == a + Flatten(names) + b
  {
    FlattenSnoc([a] + names, b);
    FlattenCons(a, names);
  }

  lemma {:induction false} FlattenCons(a: bytes, names: seq<bytes>)
    ensures Flatten([a] + names) == a + Flatten(names)
  {
    if names == [] {
      assert [a] + names == [a];
      Flatten6(a, [], [], [], [], []);
    } else {
      var init, last := names[..|names| - 1], names[|names| - 1];
      FlattenCons(a, init);
      FlattenSnoc([a] + init, last);
      assert [a] + names == ([a] + init) + [last];
    }
  }
}
