/**
 The whole stack is transparent: over a transport that delivers, a call means
 what the device does with it directly, however the call is authorized.
 */
module Transparency {
  import opened Basics
  import opened Constants
  import opened Marshal
  import opened CryptoCore
  import opened Sessions
  import opened ResponseCodes
  import opened Dispatcher
  import opened Frames
  import opened ReferenceTpm
  import opened LockStep
  import opened Delivery

  datatype Credential =
    | NoCredential
    | ByPassword(pw: bytes)
    | BySession(authValue: bytes, entropy: bytes)

  /** How the caller asks the dispatcher to authorize, session s being at hand. */
  function ViewOf(cred: Credential, s: SessionState): AuthView {
    match cred
    case NoCredential => NoAuthView
    case ByPassword(pw) => PasswordView(pw)
    case BySession(authValue, _) => SessionView(s, authValue)
  }

  function EntropyOf(cred: Credential): bytes {
    if cred.BySession? then cred.entropy else []
  }

  /** The auth value the caller claims to know. */
  function Presented(cred: Credential): Option<bytes> {
    match cred
    case NoCredential => None
    case ByPassword(pw) => Some(pw)
    case BySession(authValue, _) => Some(authValue)
  }

  /** What the call means on the device itself. */
  function Meaning<D>(dev: Device<D>, device: D, call: Call, presented: Option<bytes>): (D, Result<RawResponse>)
    requires presented.Some? ==> call.handles != []
  {
    if presented.Some? && presented.value != dev.authValue(device, call.handles[0])
    then (device, Failure(Error.Code(RC_AUTH_FAIL)))
    else
      var (after, answer) := dev.exec(device, presented.Some?, call.code, call.handles, call.params);
      match answer
      case Refused(rc) => (device, Failure(Error.Code(rc)))
      case Done(handles, params) => (after, Success(RawResponse(handles, params)))
  }

  /** A wrong auth value is caught: its HMAC of this command is not the right one. */
  ghost predicate Telling<D>(c: Crypto, dev: Device<D>, tpm: TpmState<D>, call: Call, s: SessionState, authValue: bytes)
    requires call.handles != []
  {
    var right := dev.authValue(tpm.device, call.handles[0]);
    authValue == right || SessionEntry(c, call, s, authValue).hmac != SessionEntry(c, call, s, right).hmac
  }

  ghost predicate Usable<D>(c: Crypto, dev: Device<D>, tpm: TpmState<D>, s: SessionState, call: Call,
                            cred: Credential)
  {
    && |call.handles| == dev.handleCount(call.code) && |call.handles| <= 3 && |call.params| <= 0x100_0000
    && match cred
       case NoCredential =>
         && call.code != CC_START_AUTH_SESSION
         && (call.code == CC_FLUSH_CONTEXT && FlushedHandle(call.params).Some?
             ==> FlushedHandle(call.params).value !in tpm.sessions)
       case ByPassword(pw) => call.handles != [] && |pw| <= U16_MAX
       case BySession(authValue, entropy) =>
         && call.handles != [] && call.names == NamesOf(dev, tpm.device, call.handles)
         && |entropy| == SizeOf(s.alg)
         && Telling(c, dev, tpm, call, SignedSession(s, entropy), authValue)
  }

  /** The answer has the handles the caller expects, fits a reply, and is not a
      request to resubmit. */
  predicate Modest(call: Call, answer: Answer) {
    match answer
    case Done(handles, params) => |handles| == call.respHandles <= 3 && |params| <= 0x100_0000
    case Refused(rc) => !IsRetryCode(rc)
  }

  lemma ModestFits(call: Call, answer: Answer, entry: Option<AuthResponse>)
    requires answer.Done? && Modest(call, answer)
    requires entry.Some? ==> |entry.value.nonceTpm| <= 64 && |entry.value.hmac| <= 64
    ensures ReplyFits(answer.handles, answer.params, entry, [])
  {
    HandleBytesLength(answer.handles);
    if entry.Some? {
      assert |ResponseEntryBytes(entry.value)| <= 133;
    }
  }

  /** The TPM's answer without a session, as the host takes it. */
  lemma DeviceAnswer<D>(c: Crypto, dev: Device<D>, tpm: TpmState<D>, call: Call, cmd: Command, authorized: bool,
                        entry: Option<AuthResponse>, view: AuthView)
    requires cmd.code == call.code && cmd.handles == call.handles && cmd.params == call.params
    requires Modest(call, dev.exec(tpm.device, authorized, call.code, call.handles, call.params).1)
    requires entry == None || entry == Some(PW_ENTRY)
    requires !view.SessionView?
    ensures var (device, answer) := dev.exec(tpm.device, authorized, call.code, call.handles, call.params);
      var served := ServeOnDevice(dev, tpm, cmd, authorized, entry);
      var v := Judged(c, call, served.reply, view);
      && served.tpm == tpm.(device := if answer.Done? then device else tpm.device)
      && !v.again && v.auth == view
      && v.result == if answer.Done? then Success(RawResponse(answer.handles, answer.params))
                     else Failure(Error.Code(answer.rc))
  {
    var answer := dev.exec(tpm.device, authorized, call.code, call.handles, call.params).1;
    if answer.Done? {
      ModestFits(call, answer, entry);
      ReplyRoundTrip(answer.handles, answer.params, entry, []);
    } else {
      RefusalJudged(c, call, answer.rc, view);
    }
  }

  lemma RefusalJudged(c: Crypto, call: Call, rc: ErrorCode, view: AuthView)
    requires !IsRetryCode(rc)
    ensures Judged(c, call, ErrorFrame(rc), view) == Verdict(Failure(Error.Code(rc)), view, false)
  {
    ErrorRoundTrip(call.respHandles, rc);
    TransientExactly(rc);
  }

  /** What one delivery of the call's frame comes to. */
  ghost predicate Means<D>(c: Crypto, dev: Device<D>, tpm: TpmState<D>, s: SessionState, call: Call, cred: Credential,
                           view: AuthView, served: Served<D>)
    requires Presented(cred).Some? ==> call.handles != []
  {
    var v := Judged(c, call, served.reply, view);
    var (device, result) := Meaning(dev, tpm.device, call, Presented(cred));
    && !v.again && v.result == result && served.tpm.device == device
    && SameSession(s, tpm, SessionAfter(v.auth, s), served.tpm)
  }

  /** Both ends are in step about the session they had, and nobody else's session
      has changed. */
  ghost predicate SameSession<D>(s: SessionState, tpm: TpmState<D>, s': SessionState, after: TpmState<D>) {
    && InStep(s', after) && s'.handle == s.handle && s'.alg == s.alg
    && after.sessions - {s.handle} == tpm.sessions - {s.handle}
  }

  /** The session the host is left with. */
  function SessionAfter(auth: AuthView, s: SessionState): SessionState {
    if auth.SessionView? then auth.session else s
  }

  lemma PlainMeans<D>(c: Crypto, dev: Device<D>, tpm: TpmState<D>, s: SessionState, call: Call, draw: Draw)
    requires InStep(s, tpm) && Usable(c, dev, tpm, s, call, NoCredential)
    requires Modest(call, dev.exec(tpm.device, false, call.code, call.handles, call.params).1)
    ensures Means(c, dev, tpm, s, call, NoCredential, NoAuthView, Serve(c, dev, tpm, Frame(call, None), draw))
  {
    CallRoundTrip(dev.handleCount, call, None);
    DeviceAnswer(c, dev, tpm, call, Command(call.code, call.handles, None, call.params), false, None, NoAuthView);
  }

  function PasswordEntry(pw: bytes): AuthCommand {
    AuthCommand(RS_PW, [], CONTINUE_SESSION, pw)
  }

  lemma PasswordServed<D>(c: Crypto, dev: Device<D>, tpm: TpmState<D>, call: Call, pw: bytes, draw: Draw)
    requires |call.handles| == dev.handleCount(call.code) && 0 < |call.handles| <= 3
    requires |call.params| <= 0x100_0000 && |pw| <= U16_MAX
    ensures Serve(c, dev, tpm, Frame(call, Some(EntryBytes(PasswordEntry(pw)))), draw)
         == ServePassword(dev, tpm, Command(call.code, call.handles, Some(PasswordEntry(pw)), call.params))
  {
    var entry := PasswordEntry(pw);
    assert |EntryBytes(entry)| == 9 + |pw|;
    CallRoundTrip(dev.handleCount, call, Some(entry));
  }

  lemma PasswordMeans<D>(c: Crypto, dev: Device<D>, tpm: TpmState<D>, s: SessionState, call: Call, pw: bytes,
                         draw: Draw)
    requires InStep(s, tpm) && Usable(c, dev, tpm, s, call, ByPassword(pw))
    requires Modest(call, dev.exec(tpm.device, true, call.code, call.handles, call.params).1)
    ensures Means(c, dev, tpm, s, call, ByPassword(pw), PasswordView(pw),
                  Serve(c, dev, tpm, Frame(call, Some(EntryBytes(PasswordEntry(pw)))), draw))
  {
    PasswordServed(c, dev, tpm, call, pw, draw);
    var cmd := Command(call.code, call.handles, Some(PasswordEntry(pw)), call.params);
    if pw == dev.authValue(tpm.device, call.handles[0]) {
      DeviceAnswer(c, dev, tpm, call, cmd, true, Some(PW_ENTRY), PasswordView(pw));
    } else {
      assert ServePassword(dev, tpm, cmd) == Served(tpm, ErrorFrame(RC_AUTH_FAIL));
      RefusalJudged(c, call, RC_AUTH_FAIL, PasswordView(pw));
    }
  }

  lemma SessionFits<D>(c: Crypto, dev: Device<D>, tpm: TpmState<D>, s: SessionState, call: Call,
                       authValue: bytes, entropy: bytes)
    requires InStep(s, tpm) && Usable(c, dev, tpm, s, call, BySession(authValue, entropy))
    ensures 10 + |CommandBody(SignedCommand(c, call, SignedSession(s, entropy), authValue))| < TWO_32
  {
    var e := SessionEntry(c, call, SignedSession(s, entropy), authValue);
    assert |EntryBytes(e)| == 9 + |e.nonceCaller| + |e.hmac|;
    HandleBytesLength(call.handles);
  }

  lemma CarriedOutSameSession<D>(c: Crypto, dev: Device<D>, tpm: TpmState<D>, call: Call, s: SessionState,
                                 authValue: bytes, draw: Draw, after: TpmState<D>)
    requires InStep(s, tpm) && call.handles != [] && CarriedOut(c, dev, tpm, call, s, authValue, draw, after)
    ensures SameSession(s, tpm, s.(nonceTpm := draw.nonce), after)
  {
  }

  lemma RightSessionCompletes<D>(c: Crypto, dev: Device<D>, tpm: TpmState<D>, call: Call, s: SessionState,
                                 authValue: bytes, draw: Draw)
    requires InStep(s, tpm) && Faithful(c, dev, tpm.device, call, s, authValue)
    requires var answer := dev.exec(tpm.device, true, call.code, call.handles, call.params).1;
      answer.Done? && Modest(call, answer)
    ensures var served := Serve(c, dev, tpm, SignedFrame(c, call, s, authValue), draw);
      && served.tpm.device == dev.exec(tpm.device, true, call.code, call.handles, call.params).0
      && SameSession(s, tpm, s.(nonceTpm := draw.nonce), served.tpm)
      && ParseResponse(c, call, served.reply, SessionView(s, authValue))
         == (Success(Response(dev, tpm.device, call)), SessionView(s.(nonceTpm := draw.nonce), authValue))
  {
    var e := Record(c, dev, tpm, call, s, authValue, draw);
    ModestFits(call, dev.exec(tpm.device, true, call.code, call.handles, call.params).1, Some(ReplyEntry(c, e)));
    DeliveredCompletes(c, dev, tpm, call, s, authValue, draw);
    CarriedOutSameSession(c, dev, tpm, call, s, authValue, draw,
                          Serve(c, dev, tpm, SignedFrame(c, call, s, authValue), draw).tpm);
  }

  /** A session command with the right auth value. */
  lemma RightSessionMeans<D>(c: Crypto, dev: Device<D>, tpm: TpmState<D>, s: SessionState, call: Call,
                             authValue: bytes, entropy: bytes, draw: Draw)
    requires InStep(s, tpm) && Usable(c, dev, tpm, s, call, BySession(authValue, entropy))
    requires Modest(call, dev.exec(tpm.device, true, call.code, call.handles, call.params).1)
    requires authValue == dev.authValue(tpm.device, call.handles[0])
    ensures var s' := SignedSession(s, entropy);
      Means(c, dev, tpm, s', call, BySession(authValue, entropy), SessionView(s', authValue),
            Serve(c, dev, tpm, SignedFrame(c, call, s', authValue), draw))
  {
    var s' := SignedSession(s, entropy);
    SessionFits(c, dev, tpm, s, call, authValue, entropy);
    var answer := dev.exec(tpm.device, true, call.code, call.handles, call.params).1;
    if answer.Done? {
      RightSessionCompletes(c, dev, tpm, call, s', authValue, draw);
    } else {
      FrameAccepted(c, dev, tpm, call, s', authValue, draw);
      RefusalJudged(c, call, answer.rc, SessionView(s', authValue));
    }
  }

  lemma WrongSessionRefused<D>(c: Crypto, dev: Device<D>, tpm: TpmState<D>, s: SessionState, call: Call,
                               authValue: bytes, entropy: bytes, draw: Draw)
    requires InStep(s, tpm) && Usable(c, dev, tpm, s, call, BySession(authValue, entropy))
    requires authValue != dev.authValue(tpm.device, call.handles[0])
    ensures Serve(c, dev, tpm, SignedFrame(c, call, SignedSession(s, entropy), authValue), draw)
         == Served(tpm, ErrorFrame(RC_AUTH_FAIL))
  {
    var s' := SignedSession(s, entropy);
    SessionFits(c, dev, tpm, s, call, authValue, entropy);
    CommandRoundTrip(dev.handleCount, SignedCommand(c, call, s', authValue));
    var e := Record(c, dev, tpm, call, s', authValue, draw);
    assert call.names[0] == call.ObjectName();
    assert c.hmac(e.alg, e.key, CommandMessage(c, e))
        == SessionEntry(c, call, s', dev.authValue(tpm.device, call.handles[0])).hmac;
  }

  /** A session command with a wrong auth value. */
  lemma WrongSessionMeans<D>(c: Crypto, dev: Device<D>, tpm: TpmState<D>, s: SessionState, call: Call,
                             authValue: bytes, entropy: bytes, draw: Draw)
    requires InStep(s, tpm) && Usable(c, dev, tpm, s, call, BySession(authValue, entropy))
    requires authValue != dev.authValue(tpm.device, call.handles[0])
    ensures var s' := SignedSession(s, entropy);
      Means(c, dev, tpm, s', call, BySession(authValue, entropy), SessionView(s', authValue),
            Serve(c, dev, tpm, SignedFrame(c, call, s', authValue), draw))
  {
    WrongSessionRefused(c, dev, tpm, s, call, authValue, entropy, draw);
    RefusalJudged(c, call, RC_AUTH_FAIL, SessionView(SignedSession(s, entropy), authValue));
  }

  lemma SessionMeans<D>(c: Crypto, dev: Device<D>, tpm: TpmState<D>, s: SessionState, call: Call,
                        authValue: bytes, entropy: bytes, draw: Draw)
    requires InStep(s, tpm) && Usable(c, dev, tpm, s, call, BySession(authValue, entropy))
    requires Modest(call, dev.exec(tpm.device, true, call.code, call.handles, call.params).1)
    ensures var s' := SignedSession(s, entropy);
      Means(c, dev, tpm, s', call, BySession(authValue, entropy), SessionView(s', authValue),
            Serve(c, dev, tpm, Frame(call, Some(EntryBytes(SessionEntry(c, call, s', authValue)))), draw))
  {
    SameFrame(c, call, SignedSession(s, entropy), authValue);
    if authValue == dev.authValue(tpm.device, call.handles[0]) {
      RightSessionMeans(c, dev, tpm, s, call, authValue, entropy, draw);
    } else {
      WrongSessionMeans(c, dev, tpm, s, call, authValue, entropy, draw);
    }
  }

  /** The session as it is when the frame goes out. */
  function Signing(cred: Credential, s: SessionState): SessionState {
    if cred.BySession? then SignedSession(s, cred.entropy) else s
  }

  /** The entry that authorizes the call. */
  function EntryOf(c: Crypto, call: Call, cred: Credential, s: SessionState): Option<AuthCommand> {
    match cred
    case NoCredential => None
    case ByPassword(pw) => Some(PasswordEntry(pw))
    case BySession(authValue, entropy) => Some(SessionEntry(c, call, SignedSession(s, entropy), authValue))
  }

  lemma AuthorizedAs<D>(c: Crypto, dev: Device<D>, tpm: TpmState<D>, s: SessionState, call: Call, cred: Credential)
    requires InStep(s, tpm) && Usable(c, dev, tpm, s, call, cred)
    ensures Authorize(c, call, ViewOf(cred, s), EntropyOf(cred))
         == Success((ViewOf(cred, Signing(cred, s)), AreaBytes(EntryOf(c, call, cred, s))))
  {
  }

  /** However the call is authorized, each delivery of its frame means the same. */
  lemma ServedMeans<D>(c: Crypto, dev: Device<D>, tpm: TpmState<D>, s: SessionState, call: Call, cred: Credential,
                       draw: Draw)
    requires InStep(s, tpm) && Usable(c, dev, tpm, s, call, cred)
    requires Modest(call, dev.exec(tpm.device, Presented(cred).Some?, call.code, call.handles, call.params).1)
    ensures Means(c, dev, tpm, Signing(cred, s), call, cred, ViewOf(cred, Signing(cred, s)),
                  Serve(c, dev, tpm, Frame(call, AreaBytes(EntryOf(c, call, cred, s))), draw))
  {
    match cred {
      case NoCredential =>
        PlainMeans(c, dev, tpm, s, call, draw);
      case ByPassword(pw) =>
        PasswordMeans(c, dev, tpm, s, call, pw, draw);
      case BySession(authValue, entropy) =>
        SessionMeans(c, dev, tpm, s, call, authValue, entropy, draw);
    }
  }

  /** Over a transport that delivers, after any tolerable number of warnings,
      the caller gets exactly what the device does with the call, and the
      session stays in step, whichever way the call is authorized. */
  lemma Transparent<D(!new)>(c: Crypto, dev: Device<D>, tpm: TpmState<D>, s: SessionState, call: Call,
                             cred: Credential, codes: seq<ErrorCode>, draw: Draw)
    requires InStep(s, tpm) && Usable(c, dev, tpm, s, call, cred) && FewWarnings(codes)
    requires Modest(call, dev.exec(tpm.device, Presented(cred).Some?, call.code, call.handles, call.params).1)
    ensures var o := RunCall(c, Link(c, dev), Delivering(tpm, codes, draw), call, ViewOf(cred, s), EntropyOf(cred));
      && (o.state.tpm.device, o.result) == Meaning(dev, tpm.device, call, Presented(cred))
      && SameSession(s, tpm, SessionAfter(o.auth, s), o.state.tpm)
  {
    AuthorizedAs(c, dev, tpm, s, call, cred);
    ServedMeans(c, dev, tpm, s, call, cred, draw);
    DeliveredExactly(c, dev, tpm, call, ViewOf(cred, s), EntropyOf(cred), ViewOf(cred, Signing(cred, s)),
                     AreaBytes(EntryOf(c, call, cred, s)), codes, draw);
  }

  lemma PlainDelivered<D(!new)>(c: Crypto, dev: Device<D>, tpm: TpmState<D>, s: SessionState, call: Call,
                                codes: seq<ErrorCode>, draw: Draw)
    requires Usable(c, dev, tpm, s, call, NoCredential) && FewWarnings(codes)
    requires Modest(call, dev.exec(tpm.device, false, call.code, call.handles, call.params).1)
    ensures var o := RunCall(c, Link(c, dev), Delivering(tpm, codes, draw), call, NoAuthView, []);
      (o.state.tpm.device, o.result) == Meaning(dev, tpm.device, call, None)
  {
    CallRoundTrip(dev.handleCount, call, None);
    DeviceAnswer(c, dev, tpm, call, Command(call.code, call.handles, None, call.params), false, None, NoAuthView);
    DeliveredExactly(c, dev, tpm, call, NoAuthView, [], NoAuthView, None, codes, draw);
  }

  lemma PasswordDelivered<D(!new)>(c: Crypto, dev: Device<D>, tpm: TpmState<D>, s: SessionState, call: Call, pw: bytes,
                                   codes: seq<ErrorCode>, draw: Draw)
    requires Usable(c, dev, tpm, s, call, ByPassword(pw)) && FewWarnings(codes)
    requires Modest(call, dev.exec(tpm.device, true, call.code, call.handles, call.params).1)
    ensures var o := RunCall(c, Link(c, dev), Delivering(tpm, codes, draw), call, PasswordView(pw), []);
      (o.state.tpm.device, o.result) == Meaning(dev, tpm.device, call, Some(pw))
  {
    PasswordServed(c, dev, tpm, call, pw, draw);
    var cmd := Command(call.code, call.handles, Some(PasswordEntry(pw)), call.params);
    if pw == dev.authValue(tpm.device, call.handles[0]) {
      DeviceAnswer(c, dev, tpm, call, cmd, true, Some(PW_ENTRY), PasswordView(pw));
    } else {
      RefusalJudged(c, call, RC_AUTH_FAIL, PasswordView(pw));
    }
    DeliveredExactly(c, dev, tpm, call, PasswordView(pw), [], PasswordView(pw),
                     Some(EntryBytes(PasswordEntry(pw))), codes, draw);
  }

  /** The same for a host that may have no session at hand, unless the call is
      authorized by one. */
  lemma TransparentWithout<D(!new)>(c: Crypto, dev: Device<D>, tpm: TpmState<D>, s: SessionState, call: Call,
                                    cred: Credential, codes: seq<ErrorCode>, draw: Draw)
    requires (cred.BySession? ==> InStep(s, tpm)) && Usable(c, dev, tpm, s, call, cred) && FewWarnings(codes)
    requires Modest(call, dev.exec(tpm.device, Presented(cred).Some?, call.code, call.handles, call.params).1)
    ensures var o := RunCall(c, Link(c, dev), Delivering(tpm, codes, draw), call, ViewOf(cred, s), EntropyOf(cred));
      (o.state.tpm.device, o.result) == Meaning(dev, tpm.device, call, Presented(cred))
  {
    match cred {
      case NoCredential =>
        PlainDelivered(c, dev, tpm, s, call, codes, draw);
      case ByPassword(pw) =>
        PasswordDelivered(c, dev, tpm, s, call, pw, codes, draw);
      case BySession(_, _) =>
        Transparent(c, dev, tpm, s, call, cred, codes, draw);
    }
  }

  /** Over any transport that does not lie, the caller gets what the device does
      with the call, or an error; and the device did that or nothing.  Unless
      the reply got lost on its way back, the session stays in step. */
  lemma TransparentOrLost<D(!new)>(c: Crypto, dev: Device<D>, w: World<D>, s: SessionState, call: Call,
                                   cred: Credential)
    requires InStep(s, w.tpm) && Usable(c, dev, w.tpm, s, call, cred) && Honest(w.schedule)
    requires Modest(call, dev.exec(w.tpm.device, Presented(cred).Some?, call.code, call.handles, call.params).1)
    ensures EndsWell(dev, w, s, call, cred, RunCall(c, Link(c, dev), w, call, ViewOf(cred, s), EntropyOf(cred)))
  {
    var o := RunCall(c, Link(c, dev), w, call, ViewOf(cred, s), EntropyOf(cred));
    var view, area := ViewOf(cred, Signing(cred, s)), AreaBytes(EntryOf(c, call, cred, s));
    AuthorizedAs(c, dev, w.tpm, s, call, cred);
    CallServedAtMostOnce(c, dev, w, call, ViewOf(cred, s), EntropyOf(cred), view, area);
    if !NotServed(w.tpm, view, o) {
      var draw :| ServedWith(c, dev, w.tpm, call, Frame(call, area), view, o, draw);
      ServedMeans(c, dev, w.tpm, s, call, cred, draw);
      ServedEndsWell(c, dev, w, s, call, cred, o, draw);
    }
  }

  /** One of three: the call's meaning came about and the caller has its result;
      nothing came about and the caller has an error; or it came about and the
      reply was lost. */
  ghost predicate EndsWell<D>(dev: Device<D>, w: World<D>, s: SessionState, call: Call, cred: Credential,
                              o: Outcome<World<D>>)
    requires Presented(cred).Some? ==> call.handles != []
  {
    var (device, result) := Meaning(dev, w.tpm.device, call, Presented(cred));
    || (o.result == result && o.state.tpm.device == device && InStep(SessionAfter(o.auth, s), o.state.tpm))
    || (o.result.Failure? && o.state.tpm == w.tpm && InStep(SessionAfter(o.auth, s), o.state.tpm))
    || (o.result == Failure(Unreachable) && o.state.tpm.device == device)
  }

  lemma ServedEndsWell<D>(c: Crypto, dev: Device<D>, w: World<D>, s: SessionState, call: Call, cred: Credential,
                          o: Outcome<World<D>>, draw: Draw)
    requires Presented(cred).Some? ==> call.handles != []
    requires var frame, view := Frame(call, AreaBytes(EntryOf(c, call, cred, s))), ViewOf(cred, Signing(cred, s));
      && ServedWith(c, dev, w.tpm, call, frame, view, o, draw)
      && Means(c, dev, w.tpm, Signing(cred, s), call, cred, view, Serve(c, dev, w.tpm, frame, draw))
    ensures EndsWell(dev, w, s, call, cred, o)
  {
  }

  // ---------- with no assumption about the session ----------

  lemma ReplyTaken(c: Crypto, call: Call, handles: seq<u32>, params: bytes, entry: Option<AuthResponse>, view: AuthView)
    requires ReplyFits(handles, params, entry, []) && |handles| == call.respHandles
    ensures var r := ParseResponse(c, call, ReplyFrame(handles, params, entry, []), view).0;
      r.Failure? || r == Success(RawResponse(handles, params))
  {
    ReplyRoundTrip(handles, params, entry, []);
  }

  lemma ErrorTaken(c: Crypto, call: Call, rc: ErrorCode, view: AuthView)
    ensures ParseResponse(c, call, ErrorFrame(rc), view).0.Failure?
  {
    ErrorRoundTrip(call.respHandles, rc);
  }

  /** Serving did nothing and the reply is an error, or it did what the call
      means and the reply is taken for that or refused. */
  ghost predicate DoesOrNot<D>(c: Crypto, dev: Device<D>, tpm: TpmState<D>, call: Call, presented: Option<bytes>,
                               view: AuthView, served: Served<D>)
    requires presented.Some? ==> call.handles != []
  {
    var (device, result) := Meaning(dev, tpm.device, call, presented);
    var r := ParseResponse(c, call, served.reply, view).0;
    || (served.tpm.device == tpm.device && r.Failure?)
    || (result.Success? && served.tpm.device == device && (r.Failure? || r == result))
  }

  /** The auth value presented, if any, is the object's. */
  predicate Entitled<D>(dev: Device<D>, tpm: TpmState<D>, call: Call, presented: Option<bytes>)
    requires presented.Some? ==> call.handles != []
  {
    presented.Some? ==> presented.value == dev.authValue(tpm.device, call.handles[0])
  }

  lemma DeviceDoesOrNot<D>(c: Crypto, dev: Device<D>, tpm: TpmState<D>, call: Call, cmd: Command,
                           presented: Option<bytes>, entry: Option<AuthResponse>, view: AuthView)
    requires cmd.code == call.code && cmd.handles == call.handles && cmd.params == call.params
    requires (presented.Some? ==> call.handles != []) && Entitled(dev, tpm, call, presented)
    requires Modest(call, dev.exec(tpm.device, presented.Some?, call.code, call.handles, call.params).1)
    ensures DoesOrNot(c, dev, tpm, call, presented, view, ServeOnDevice(dev, tpm, cmd, presented.Some?, entry))
  {
    var answer := dev.exec(tpm.device, presented.Some?, call.code, call.handles, call.params).1;
    if answer.Refused? {
      ErrorTaken(c, call, answer.rc, view);
    } else if ReplyFits(answer.handles, answer.params, entry, []) {
      ReplyTaken(c, call, answer.handles, answer.params, entry, view);
    } else {
      ErrorTaken(c, call, RC_FAILURE, view);
    }
  }

  lemma PasswordDoesOrNot<D>(c: Crypto, dev: Device<D>, tpm: TpmState<D>, call: Call, cmd: Command,
                             presented: Option<bytes>, view: AuthView)
    requires cmd.code == call.code && cmd.handles == call.handles && cmd.params == call.params
    requires cmd.auth.Some? && cmd.handles != [] && cmd.auth.value.handle == RS_PW && presented.Some?
    requires Passes(c, dev, tpm, call, cmd.auth.value) ==> Entitled(dev, tpm, call, presented)
    requires Modest(call, dev.exec(tpm.device, true, call.code, call.handles, call.params).1)
    ensures DoesOrNot(c, dev, tpm, call, presented, view, ServePassword(dev, tpm, cmd))
  {
    if Passes(c, dev, tpm, call, cmd.auth.value) {
      DeviceDoesOrNot(c, dev, tpm, call, cmd, presented, Some(PW_ENTRY), view);
    } else {
      ErrorTaken(c, call, RC_AUTH_FAIL, view);
    }
  }

  /** The TPM takes the entry for an authorization of the call. */
  ghost predicate Passes<D>(c: Crypto, dev: Device<D>, tpm: TpmState<D>, call: Call, entry: AuthCommand)
    requires call.handles != []
  {
    if entry.handle == RS_PW then entry.hmac == dev.authValue(tpm.device, call.handles[0])
    else
      && entry.handle in tpm.sessions
      && var t, names := tpm.sessions[entry.handle], NamesOf(dev, tpm.device, call.handles);
         var p := c.hash(t.alg, U32Bytes(call.code) + Flatten(names) + call.params);
         entry.hmac == c.hmac(t.alg, ObjectKey(t, dev.authValue(tpm.device, call.handles[0]), names[0]),
                              p + entry.nonceCaller + t.nonceTpm + [entry.attributes])
  }

  lemma SessionDoesOrNot<D>(c: Crypto, dev: Device<D>, tpm: TpmState<D>, call: Call, frame: bytes, cmd: Command,
                            presented: Option<bytes>, draw: Draw, view: AuthView)
    requires cmd.code == call.code && cmd.handles == call.handles && cmd.params == call.params
    requires cmd.auth.Some? && cmd.handles != [] && cmd.auth.value.handle != RS_PW && presented.Some?
    requires Passes(c, dev, tpm, call, cmd.auth.value) ==> Entitled(dev, tpm, call, presented)
    requires Modest(call, dev.exec(tpm.device, true, call.code, call.handles, call.params).1)
    ensures DoesOrNot(c, dev, tpm, call, presented, view, ServeSession(c, dev, tpm, frame, cmd, draw))
  {
    if cmd.auth.value.handle !in tpm.sessions {
      ErrorTaken(c, call, RC_REFERENCE_S0, view);
    } else {
      var (device, answer) := dev.exec(tpm.device, true, call.code, call.handles, call.params);
      var e := Pending(dev, tpm, frame, cmd, answer, draw);
      if c.hmac(e.alg, e.key, CommandMessage(c, e)) != e.signed.hmac {
        ErrorTaken(c, call, RC_AUTH_FAIL, view);
      } else if answer.Refused? {
        ErrorTaken(c, call, answer.rc, view);
      } else if ReplyFits(e.handles, e.params, Some(ReplyEntry(c, e)), []) {
        ReplyTaken(c, call, answer.handles, answer.params, Some(ReplyEntry(c, e)), view);
      } else {
        ErrorTaken(c, call, RC_FAILURE, view);
      }
    }
  }

  /** The call can be sent, whatever has become of the session, and a session
      HMAC made with a wrong auth value is not the one that the TPM expects. */
  ghost predicate Sendable<D>(c: Crypto, dev: Device<D>, tpm: TpmState<D>, s: SessionState, call: Call,
                              cred: Credential)
  {
    && |call.handles| == dev.handleCount(call.code) && |call.handles| <= 3 && |call.params| <= 0x100_0000
    && match cred
       case NoCredential =>
         && call.code != CC_START_AUTH_SESSION
         && (call.code == CC_FLUSH_CONTEXT && FlushedHandle(call.params).Some?
             ==> FlushedHandle(call.params).value !in tpm.sessions)
       case ByPassword(_) => call.handles != []
       case BySession(authValue, entropy) =>
         && call.handles != [] && (IsHash(s.alg) ==> |entropy| == SizeOf(s.alg))
         && (Passes(c, dev, tpm, call, SessionEntry(c, call, SignedSession(s, entropy), authValue))
             ==> authValue == dev.authValue(tpm.device, call.handles[0]))
  }

  lemma AuthorizesEntry<D>(c: Crypto, dev: Device<D>, tpm: TpmState<D>, s: SessionState, call: Call, cred: Credential)
    requires Sendable(c, dev, tpm, s, call, cred) && Authorize(c, call, ViewOf(cred, s), EntropyOf(cred)).Success?
    ensures var entry := EntryOf(c, call, cred, s);
      && Authorize(c, call, ViewOf(cred, s), EntropyOf(cred)).value.1 == AreaBytes(entry)
      && ReadCommand(dev.handleCount, Frame(call, AreaBytes(entry)))
         == Parsed(Command(call.code, call.handles, entry, call.params), [])
  {
    var entry := EntryOf(c, call, cred, s);
    if entry.Some? {
      assert |EntryBytes(entry.value)| == 9 + |entry.value.nonceCaller| + |entry.value.hmac|;
    }
    CallRoundTrip(dev.handleCount, call, entry);
  }

  lemma FrameDoesOrNot<D>(c: Crypto, dev: Device<D>, tpm: TpmState<D>, s: SessionState, call: Call, cred: Credential,
                          draw: Draw)
    requires Sendable(c, dev, tpm, s, call, cred) && Authorize(c, call, ViewOf(cred, s), EntropyOf(cred)).Success?
    requires Modest(call, dev.exec(tpm.device, Presented(cred).Some?, call.code, call.handles, call.params).1)
    ensures var (view, area) := Authorize(c, call, ViewOf(cred, s), EntropyOf(cred)).value;
      DoesOrNot(c, dev, tpm, call, Presented(cred), view, Serve(c, dev, tpm, Frame(call, area), draw))
  {
    AuthorizesEntry(c, dev, tpm, s, call, cred);
    var (view, area) := Authorize(c, call, ViewOf(cred, s), EntropyOf(cred)).value;
    var cmd := Command(call.code, call.handles, EntryOf(c, call, cred, s), call.params);
    if cmd.auth.None? {
      DeviceDoesOrNot(c, dev, tpm, call, cmd, None, None, view);
    } else if cmd.auth.value.handle == RS_PW {
      PasswordDoesOrNot(c, dev, tpm, call, cmd, Presented(cred), view);
    } else {
      SessionDoesOrNot(c, dev, tpm, call, Frame(call, area), cmd, Presented(cred), draw, view);
    }
  }

  /** Over any transport that does not lie, in step or not and with whatever
      auth value: what the call means for somebody who presents that value was
      done and was no refusal, or nothing was done; and a caller who has a result
      has the result of that. */
  lemma DoneOrNot<D(!new)>(c: Crypto, dev: Device<D>, w: World<D>, s: SessionState, call: Call, cred: Credential)
    requires Sendable(c, dev, w.tpm, s, call, cred) && Honest(w.schedule)
    requires Modest(call, dev.exec(w.tpm.device, Presented(cred).Some?, call.code, call.handles, call.params).1)
    ensures var o := RunCall(c, Link(c, dev), w, call, ViewOf(cred, s), EntropyOf(cred));
      var (device, result) := Meaning(dev, w.tpm.device, call, Presented(cred));
      || (o.state.tpm.device == w.tpm.device && o.result.Failure?)
      || (result.Success? && o.state.tpm.device == device && (o.result.Failure? || o.result == result))
  {
    var authorized := Authorize(c, call, ViewOf(cred, s), EntropyOf(cred));
    if authorized.Success? {
      var (view, area) := authorized.value;
      var o := RunCall(c, Link(c, dev), w, call, ViewOf(cred, s), EntropyOf(cred));
      CallServedAtMostOnce(c, dev, w, call, ViewOf(cred, s), EntropyOf(cred), view, area);
      if !NotServed(w.tpm, view, o) {
        var draw :| ServedWith(c, dev, w.tpm, call, Frame(call, area), view, o, draw);
        FrameDoesOrNot(c, dev, w.tpm, s, call, cred, draw);
      }
    }
  }
}
