/**
 The host's session and the TPM's session advance together.  Over a transport
 that delivers, warns and loses but does not lie, no assumption about the
 cryptography is needed.
 */
module LockStep {
  import opened Basics
  import opened Constants
  import opened CryptoCore
  import opened Sessions
  import opened Dispatcher
  import opened Frames
  import opened ReferenceTpm
  import opened Delivery

  /** Both ends hold the same session and the same nonceTPM. */
  ghost predicate InStep<D>(s: SessionState, tpm: TpmState<D>) {
    && s.handle in tpm.sessions
    && tpm.sessions[s.handle] == TpmSession(s.alg, s.key, s.boundName, s.nonceTpm)
    && IsHash(s.alg) && s.handle != RS_PW && Continues(s.attributes)
  }

  function SignedCommand(c: Crypto, call: Call, s: SessionState, authValue: bytes): Command {
    Command(call.code, call.handles, Some(SessionEntry(c, call, s, authValue)), call.params)
  }

  function SignedFrame(c: Crypto, call: Call, s: SessionState, authValue: bytes): bytes {
    CommandFrame(SignedCommand(c, call, s, authValue))
  }

  /** The call names as many handles as its command has, and its sizes fit, so
      that the TPM reads the frame as the host meant it. */
  ghost predicate Framed<D>(c: Crypto, dev: Device<D>, call: Call, s: SessionState, authValue: bytes) {
    && call.handles != [] && |call.handles| == dev.handleCount(call.code)
    && |s.nonceCaller| == SizeOf(s.alg)
    && 10 + |CommandBody(SignedCommand(c, call, s, authValue))| < TWO_32
  }

  /** The response carries as many handles as the host expects. */
  predicate Expecting<D>(dev: Device<D>, device: D, call: Call) {
    var answer := dev.exec(device, true, call.code, call.handles, call.params).1;
    answer.Done? ==> |answer.handles| == call.respHandles
  }

  /** Besides, the caller names the objects as the TPM knows them and knows the
      auth value. */
  ghost predicate Faithful<D>(c: Crypto, dev: Device<D>, device: D, call: Call, s: SessionState, authValue: bytes) {
    && Framed(c, dev, call, s, authValue) && Expecting(dev, device, call)
    && call.names == NamesOf(dev, device, call.handles)
    && authValue == dev.authValue(device, call.handles[0])
  }

  // ---------- one delivery ----------

  /** The log record of this command, once served with this draw. */
  ghost function Record<D>(c: Crypto, dev: Device<D>, tpm: TpmState<D>, call: Call, s: SessionState,
                           authValue: bytes, draw: Draw): Entry
    requires InStep(s, tpm) && call.handles != []
  {
    Pending(dev, tpm, SignedFrame(c, call, s, authValue), SignedCommand(c, call, s, authValue),
            dev.exec(tpm.device, true, call.code, call.handles, call.params).1, draw)
  }

  /** The TPM reads the frame and checks its HMAC; what passes is carried out. */
  lemma FrameChecked<D>(c: Crypto, dev: Device<D>, tpm: TpmState<D>, call: Call, s: SessionState,
                        authValue: bytes, draw: Draw)
    requires InStep(s, tpm) && Framed(c, dev, call, s, authValue)
    ensures var (device, answer) := dev.exec(tpm.device, true, call.code, call.handles, call.params);
      var e := Record(c, dev, tpm, call, s, authValue, draw);
      Serve(c, dev, tpm, SignedFrame(c, call, s, authValue), draw)
      == if c.hmac(e.alg, e.key, CommandMessage(c, e)) == e.signed.hmac then CarryOut(c, tpm, device, answer, e)
         else Served(tpm, ErrorFrame(RC_AUTH_FAIL))
  {
    CommandRoundTrip(dev.handleCount, SignedCommand(c, call, s, authValue));
  }

  /** The frame is accepted: what the host signed is what the TPM checks. */
  lemma FrameAccepted<D>(c: Crypto, dev: Device<D>, tpm: TpmState<D>, call: Call, s: SessionState,
                         authValue: bytes, draw: Draw)
    requires InStep(s, tpm) && Faithful(c, dev, tpm.device, call, s, authValue)
    ensures var (device, answer) := dev.exec(tpm.device, true, call.code, call.handles, call.params);
      Serve(c, dev, tpm, SignedFrame(c, call, s, authValue), draw)
      == CarryOut(c, tpm, device, answer, Record(c, dev, tpm, call, s, authValue, draw))
  {
    FrameChecked(c, dev, tpm, call, s, authValue, draw);
    assert call.names[0] == call.ObjectName();
  }

  /** The honest reply verifies, and rolls the host's nonce to the TPM's. */
  lemma ReplyVerifies<D>(c: Crypto, dev: Device<D>, tpm: TpmState<D>, call: Call, s: SessionState,
                         authValue: bytes, draw: Draw)
    requires InStep(s, tpm) && Faithful(c, dev, tpm.device, call, s, authValue)
    requires dev.exec(tpm.device, true, call.code, call.handles, call.params).1.Done?
    requires var e := Record(c, dev, tpm, call, s, authValue, draw);
      ReplyFits(e.handles, e.params, Some(ReplyEntry(c, e)), [])
    ensures var e := Record(c, dev, tpm, call, s, authValue, draw);
      ParseResponse(c, call, EntryReply(c, e), SessionView(s, authValue))
      == (Success(Response(dev, tpm.device, call)), SessionView(s.(nonceTpm := draw.nonce), authValue))
  {
    var e := Record(c, dev, tpm, call, s, authValue, draw);
    ReplyRoundTrip(e.handles, e.params, Some(ReplyEntry(c, e)), []);
    assert call.names[0] == call.ObjectName();
  }

  /** The TPM's reply to the frame is believed, or it is rejected for its HMAC. */
  lemma ReplyBelievedOrNot<D>(c: Crypto, dev: Device<D>, tpm: TpmState<D>, call: Call, s: SessionState,
                              authValue: bytes, draw: Draw)
    requires InStep(s, tpm) && Framed(c, dev, call, s, authValue) && Expecting(dev, tpm.device, call)
    requires dev.exec(tpm.device, true, call.code, call.handles, call.params).1.Done?
    requires var e := Record(c, dev, tpm, call, s, authValue, draw);
      ReplyFits(e.handles, e.params, Some(ReplyEntry(c, e)), [])
    ensures var v := ParseResponse(c, call, EntryReply(c, Record(c, dev, tpm, call, s, authValue, draw)),
                                   SessionView(s, authValue));
      || v == (Success(Response(dev, tpm.device, call)), SessionView(s.(nonceTpm := draw.nonce), authValue))
      || v == (Failure(Protocol), SessionView(s, authValue))
  {
    var e := Record(c, dev, tpm, call, s, authValue, draw);
    ReplyRoundTrip(e.handles, e.params, Some(ReplyEntry(c, e)), []);
  }

  /** Serving the frame either changes nothing and answers with an error code,
      or carries the command out and signs what it returns. */
  lemma ServedOnce<D>(c: Crypto, dev: Device<D>, tpm: TpmState<D>, call: Call, s: SessionState,
                      authValue: bytes, draw: Draw) returns (refusal: Option<ErrorCode>)
    requires InStep(s, tpm) && Framed(c, dev, call, s, authValue)
    ensures var served := Serve(c, dev, tpm, SignedFrame(c, call, s, authValue), draw);
      match refusal
      case Some(rc) => served == Served(tpm, ErrorFrame(rc))
      case None =>
        var e := Record(c, dev, tpm, call, s, authValue, draw);
        && CarriedOut(c, dev, tpm, call, s, authValue, draw, served.tpm)
        && served.reply == EntryReply(c, e) && ReplyFits(e.handles, e.params, Some(ReplyEntry(c, e)), [])
  {
    FrameChecked(c, dev, tpm, call, s, authValue, draw);
    var answer := dev.exec(tpm.device, true, call.code, call.handles, call.params).1;
    var e := Record(c, dev, tpm, call, s, authValue, draw);
    if c.hmac(e.alg, e.key, CommandMessage(c, e)) != e.signed.hmac {
      return Some(RC_AUTH_FAIL);
    }
    if answer.Refused? {
      return Some(answer.rc);
    }
    if !ReplyFits(e.handles, e.params, Some(ReplyEntry(c, e)), []) {
      return Some(RC_FAILURE);
    }
    return None;
  }

  // ---------- one call ----------

  /** The TPM did not act, the host got an error, and both are as they were. */
  ghost predicate Untouched<D>(tpm: TpmState<D>, s: SessionState, authValue: bytes, o: Outcome<World<D>>) {
    o.state.tpm == tpm && o.result.Failure? && o.auth == SessionView(s, authValue)
  }

  /** The TPM carried the command out, once. */
  ghost predicate CarriedOut<D>(c: Crypto, dev: Device<D>, tpm: TpmState<D>, call: Call, s: SessionState,
                                authValue: bytes, draw: Draw, after: TpmState<D>)
    requires InStep(s, tpm) && call.handles != []
  {
    var (device, answer) := dev.exec(tpm.device, true, call.code, call.handles, call.params);
    var e := Record(c, dev, tpm, call, s, authValue, draw);
    answer.Done? && after == Rolled(tpm, device, e)
  }

  /** The host has exactly what the command returned, and rolled its nonce. */
  ghost predicate Completed<D>(c: Crypto, dev: Device<D>, tpm: TpmState<D>, call: Call, s: SessionState,
                               authValue: bytes, o: Outcome<World<D>>)
    requires InStep(s, tpm) && call.handles != []
  {
    exists draw ::
      && CarriedOut(c, dev, tpm, call, s, authValue, draw, o.state.tpm)
      && o.result == Success(Response(dev, tpm.device, call))
      && o.auth == SessionView(s.(nonceTpm := draw.nonce), authValue)
  }

  /** What the command returns when it is done. */
  function Response<D>(dev: Device<D>, device: D, call: Call): RawResponse {
    match dev.exec(device, true, call.code, call.handles, call.params).1
    case Done(handles, params) => RawResponse(handles, params)
    case Refused(_) => RawResponse([], [])
  }

  /** The TPM acted and the host does not know: the reply was lost, or, for a call
      with a wrong auth value or Name whose HMAC passed by chance, rejected.  The
      host keeps the old nonce. */
  ghost predicate ReplyLost<D>(c: Crypto, dev: Device<D>, tpm: TpmState<D>, call: Call, s: SessionState,
                               authValue: bytes, o: Outcome<World<D>>)
    requires InStep(s, tpm) && call.handles != []
  {
    && (|| o.result == Failure(Unreachable)
        || (o.result == Failure(Protocol) && !Faithful(c, dev, tpm.device, call, s, authValue)))
    && o.auth == SessionView(s, authValue)
    && exists draw :: CarriedOut(c, dev, tpm, call, s, authValue, draw, o.state.tpm)
  }

  ghost predicate OneOfThree<D>(c: Crypto, dev: Device<D>, tpm: TpmState<D>, call: Call, s: SessionState,
                                authValue: bytes, o: Outcome<World<D>>)
    requires InStep(s, tpm) && call.handles != []
  {
    || Untouched(tpm, s, authValue, o)
    || Completed(c, dev, tpm, call, s, authValue, o)
    || ReplyLost(c, dev, tpm, call, s, authValue, o)
  }

  /** Over an honest transport a session command ends in one of three ways, and
      in no other, however often it was resubmitted, and whatever auth value and
      Names the caller signed it with. */
  lemma HonestCall<D(!new)>(c: Crypto, dev: Device<D>, w: World<D>, call: Call, s: SessionState,
                            authValue: bytes, entropy: bytes)
    requires InStep(s, w.tpm) && Honest(w.schedule)
    requires Framed(c, dev, call, SignedSession(s, entropy), authValue) && Expecting(dev, w.tpm.device, call)
    ensures InStep(SignedSession(s, entropy), w.tpm)
    ensures OneOfThree(c, dev, w.tpm, call, SignedSession(s, entropy), authValue,
      RunCall(c, Link(c, dev), w, call, SessionView(s, authValue), entropy))
  {
    var s' := SignedSession(s, entropy);
    var view, area := SessionView(s', authValue), Some(EntryBytes(SessionEntry(c, call, s', authValue)));
    var o := RunCall(c, Link(c, dev), w, call, SessionView(s, authValue), entropy);
    CallServedAtMostOnce(c, dev, w, call, SessionView(s, authValue), entropy, view, area);
    if !NotServed(w.tpm, view, o) {
      var draw :| ServedWith(c, dev, w.tpm, call, Frame(call, area), view, o, draw);
      SameFrame(c, call, s', authValue);
      ServedIsOneOfThree(c, dev, w.tpm, call, s', authValue, o, draw);
    }
  }

  lemma CarriedOutIsKnownOrNot<D>(c: Crypto, dev: Device<D>, tpm: TpmState<D>, call: Call, s: SessionState,
                                  authValue: bytes, o: Outcome<World<D>>, draw: Draw)
    requires InStep(s, tpm) && Framed(c, dev, call, s, authValue) && Expecting(dev, tpm.device, call)
    requires CarriedOut(c, dev, tpm, call, s, authValue, draw, o.state.tpm)
    requires var e := Record(c, dev, tpm, call, s, authValue, draw);
      && ReplyFits(e.handles, e.params, Some(ReplyEntry(c, e)), [])
      && ((o.result == Failure(Unreachable) && o.auth == SessionView(s, authValue))
          || ParseResponse(c, call, EntryReply(c, e), SessionView(s, authValue)) == (o.result, o.auth))
    ensures Completed(c, dev, tpm, call, s, authValue, o) || ReplyLost(c, dev, tpm, call, s, authValue, o)
  {
    ReplyBelievedOrNot(c, dev, tpm, call, s, authValue, draw);
    if Faithful(c, dev, tpm.device, call, s, authValue) {
      ReplyVerifies(c, dev, tpm, call, s, authValue, draw);
    }
  }

  lemma ServedIsOneOfThree<D>(c: Crypto, dev: Device<D>, tpm: TpmState<D>, call: Call, s: SessionState,
                              authValue: bytes, o: Outcome<World<D>>, draw: Draw)
    requires InStep(s, tpm) && Framed(c, dev, call, s, authValue) && Expecting(dev, tpm.device, call)
    requires ServedWith(c, dev, tpm, call, SignedFrame(c, call, s, authValue), SessionView(s, authValue), o, draw)
    ensures OneOfThree(c, dev, tpm, call, s, authValue, o)
  {
    var refusal := ServedOnce(c, dev, tpm, call, s, authValue, draw);
    if refusal.Some? {
      ErrorRoundTrip(call.respHandles, refusal.value);
      assert Untouched(tpm, s, authValue, o);
    } else {
      CarriedOutIsKnownOrNot(c, dev, tpm, call, s, authValue, o, draw);
    }
  }

  lemma SameFrame(c: Crypto, call: Call, s: SessionState, authValue: bytes)
    ensures Frame(call, Some(EntryBytes(SessionEntry(c, call, s, authValue)))) == SignedFrame(c, call, s, authValue)
  {
  }

  /** The host got an error for a command that was carried out. */
  ghost predicate LostAnswer<D>(w: World<D>, o: Outcome<World<D>>) {
    o.result.Failure? && |o.state.tpm.log| > |w.tpm.log|
  }

  /** Both ends hold the same session but for the nonceTPM. */
  ghost predicate OutOfStep<D>(s: SessionState, tpm: TpmState<D>) {
    && s.handle in tpm.sessions && s.handle != RS_PW
    && var t := tpm.sessions[s.handle];
       t == TpmSession(s.alg, s.key, s.boundName, t.nonceTpm) && t.nonceTpm != s.nonceTpm
  }

  /** When the TPM draws a nonce other than the one it replaces, both ends stay
      in step exactly if no such answer is lost. */
  lemma StepKeptIff<D(!new)>(c: Crypto, dev: Device<D>, w: World<D>, call: Call, s: SessionState,
                       authValue: bytes, entropy: bytes)
    requires InStep(s, w.tpm) && Honest(w.schedule)
    requires Framed(c, dev, call, SignedSession(s, entropy), authValue) && Expecting(dev, w.tpm.device, call)
    requires var o := RunCall(c, Link(c, dev), w, call, SessionView(s, authValue), entropy);
      |o.state.tpm.log| > |w.tpm.log| ==> o.state.tpm.log[|w.tpm.log|].nonceAfter != s.nonceTpm
    ensures var o := RunCall(c, Link(c, dev), w, call, SessionView(s, authValue), entropy);
      && o.auth.SessionView?
      && (InStep(o.auth.session, o.state.tpm) <==> !LostAnswer(w, o))
      && (OutOfStep(o.auth.session, o.state.tpm) <==> LostAnswer(w, o))
  {
    HonestCall(c, dev, w, call, s, authValue, entropy);
  }

  /** The HMAC that the host sends is the one that the TPM expects only if both
      are of the same message. */
  ghost predicate Dated<D>(c: Crypto, dev: Device<D>, tpm: TpmState<D>, call: Call, s: SessionState, authValue: bytes)
    requires s.handle in tpm.sessions && call.handles != []
  {
    var t, names := tpm.sessions[s.handle], NamesOf(dev, tpm.device, call.handles);
    var key, key' := AuthKey(s.key, s.boundName, authValue, call.ObjectName()),
                     ObjectKey(t, dev.authValue(tpm.device, call.handles[0]), names[0]);
    var p, p' := c.hash(s.alg, CpInput(call.code, call.names, call.params)),
                 c.hash(t.alg, CpInput(call.code, names, call.params));
    var m, m' := AuthMessage(p, s.nonceCaller, s.nonceTpm, s.attributes),
                 AuthMessage(p', s.nonceCaller, t.nonceTpm, s.attributes);
    c.hmac(s.alg, key, m) == c.hmac(t.alg, key', m') ==> m == m'
  }

  /** The TPM refuses the frame of a host that has fallen out of step and does
      not act on it, whatever the auth value and the Names, unless two HMACs
      collide. */
  lemma OutOfStepRefused<D>(c: Crypto, dev: Device<D>, tpm: TpmState<D>, call: Call, s: SessionState,
                            authValue: bytes, draw: Draw)
    requires OutOfStep(s, tpm) && Framed(c, dev, call, s, authValue) && Dated(c, dev, tpm, call, s, authValue)
    ensures Serve(c, dev, tpm, SignedFrame(c, call, s, authValue), draw) == Served(tpm, ErrorFrame(RC_AUTH_FAIL))
  {
    var cmd, t := SignedCommand(c, call, s, authValue), tpm.sessions[s.handle];
    CommandRoundTrip(dev.handleCount, cmd);
    var p, p' := c.hash(s.alg, CpInput(call.code, call.names, call.params)),
                 c.hash(s.alg, CpInput(call.code, NamesOf(dev, tpm.device, call.handles), call.params));
    var m, m' := AuthMessage(p, s.nonceCaller, s.nonceTpm, s.attributes),
                 AuthMessage(p', s.nonceCaller, t.nonceTpm, s.attributes);
    if m == m' {
      MessageDetermines(p, s.nonceCaller, s.nonceTpm, s.attributes, p', s.nonceCaller, t.nonceTpm, s.attributes);
      assert false;
    }
    var answer := dev.exec(tpm.device, true, call.code, call.handles, call.params).1;
    var e := Pending(dev, tpm, SignedFrame(c, call, s, authValue), cmd, answer, draw);
    assert CommandMessage(c, e) == m';
  }

  lemma RefusedUntouched<D>(c: Crypto, dev: Device<D>, tpm: TpmState<D>, call: Call, s: SessionState,
                            authValue: bytes, o: Outcome<World<D>>, draw: Draw)
    requires OutOfStep(s, tpm) && Framed(c, dev, call, s, authValue) && Dated(c, dev, tpm, call, s, authValue)
    requires ServedWith(c, dev, tpm, call, SignedFrame(c, call, s, authValue), SessionView(s, authValue), o, draw)
    ensures Untouched(tpm, s, authValue, o)
  {
    OutOfStepRefused(c, dev, tpm, call, s, authValue, draw);
    ErrorRoundTrip(call.respHandles, RC_AUTH_FAIL);
  }

  /** Its call fails over any honest transport, resubmitted or not, and leaves
      the TPM as it was and the host's nonceTPM as it was. */
  lemma OutOfStepFails<D(!new)>(c: Crypto, dev: Device<D>, w: World<D>, call: Call, s: SessionState,
                                authValue: bytes, entropy: bytes)
    requires OutOfStep(s, w.tpm) && IsHash(s.alg) && Honest(w.schedule)
    requires Framed(c, dev, call, SignedSession(s, entropy), authValue)
    requires Dated(c, dev, w.tpm, call, SignedSession(s, entropy), authValue)
    ensures Untouched(w.tpm, SignedSession(s, entropy), authValue,
                      RunCall(c, Link(c, dev), w, call, SessionView(s, authValue), entropy))
  {
    var s' := SignedSession(s, entropy);
    var view, area := SessionView(s', authValue), Some(EntryBytes(SessionEntry(c, call, s', authValue)));
    var o := RunCall(c, Link(c, dev), w, call, SessionView(s, authValue), entropy);
    CallServedAtMostOnce(c, dev, w, call, SessionView(s, authValue), entropy, view, area);
    if !NotServed(w.tpm, view, o) {
      var draw :| ServedWith(c, dev, w.tpm, call, Frame(call, area), view, o, draw);
      SameFrame(c, call, s', authValue);
      RefusedUntouched(c, dev, w.tpm, call, s', authValue, o, draw);
    }
  }

  /** At most 12 warnings and then a delivery: both sides complete, with the one
      frame that was signed at the start. */
  lemma WarningsThenDelivery<D(!new)>(
    c: Crypto, dev: Device<D>, tpm: TpmState<D>, call: Call, s: SessionState, authValue: bytes, entropy: bytes,
    codes: seq<ErrorCode>, draw: Draw)
    requires InStep(s, tpm) && Faithful(c, dev, tpm.device, call, SignedSession(s, entropy), authValue)
    requires FewWarnings(codes)
    requires dev.exec(tpm.device, true, call.code, call.handles, call.params).1.Done?
    requires var e := Record(c, dev, tpm, call, SignedSession(s, entropy), authValue, draw);
      ReplyFits(e.handles, e.params, Some(ReplyEntry(c, e)), [])
    ensures Completed(c, dev, tpm, call, SignedSession(s, entropy), authValue,
      RunCall(c, Link(c, dev), Delivering(tpm, codes, draw), call, SessionView(s, authValue), entropy))
  {
    var s' := SignedSession(s, entropy);
    var area := Some(EntryBytes(SessionEntry(c, call, s', authValue)));
    SameFrame(c, call, s', authValue);
    DeliveredCompletes(c, dev, tpm, call, s', authValue, draw);
    DeliveredExactly(c, dev, tpm, call, SessionView(s, authValue), entropy, SessionView(s', authValue), area, codes,
                     draw);
  }

  lemma DeliveredCompletes<D>(c: Crypto, dev: Device<D>, tpm: TpmState<D>, call: Call, s: SessionState,
                              authValue: bytes, draw: Draw)
    requires InStep(s, tpm) && Faithful(c, dev, tpm.device, call, s, authValue)
    requires dev.exec(tpm.device, true, call.code, call.handles, call.params).1.Done?
    requires var e := Record(c, dev, tpm, call, s, authValue, draw);
      ReplyFits(e.handles, e.params, Some(ReplyEntry(c, e)), [])
    ensures var served := Serve(c, dev, tpm, SignedFrame(c, call, s, authValue), draw);
      && CarriedOut(c, dev, tpm, call, s, authValue, draw, served.tpm)
      && ParseResponse(c, call, served.reply, SessionView(s, authValue))
         == (Success(Response(dev, tpm.device, call)), SessionView(s.(nonceTpm := draw.nonce), authValue))
  {
    FrameAccepted(c, dev, tpm, call, s, authValue, draw);
    ReplyVerifies(c, dev, tpm, call, s, authValue, draw);
  }

  // ---------- whole runs ----------

  /** What can happen next: the host uses the session, over a transport that
      behaves as scheduled, or anyone else's frame reaches the TPM. */
  datatype Action =
    | Use(call: Call, authValue: bytes, entropy: bytes, events: seq<Event>)
    | Other(frame: bytes, draw: Draw)

  datatype Ends<D> = Ends(session: SessionState, tpm: TpmState<D>)

  function UseOutcome<D>(c: Crypto, dev: Device<D>, x: Ends<D>, a: Action): Outcome<World<D>>
    requires a.Use?
  {
    RunCall(c, Link(c, dev), World(x.tpm, a.events), a.call, SessionView(x.session, a.authValue), a.entropy)
  }

  function Act<D>(c: Crypto, dev: Device<D>, x: Ends<D>, a: Action): Ends<D> {
    match a
    case Use(_, _, _, _) =>
      var o := UseOutcome(c, dev, x, a);
      Ends(if o.auth.SessionView? then o.auth.session else x.session, o.state.tpm)
    case Other(frame, draw) => Ends(x.session, Serve(c, dev, x.tpm, frame, draw).tpm)
  }

  function ActAll<D>(c: Crypto, dev: Device<D>, x: Ends<D>, actions: seq<Action>): Ends<D>
    decreases |actions|
  {
    if actions == [] then x else ActAll(c, dev, Act(c, dev, x, actions[0]), actions[1..])
  }

  /** The frame is to flush this session. */
  predicate Flushes<D>(dev: Device<D>, frame: bytes, session: u32) {
    var p := ReadCommand(dev.handleCount, frame);
    && p.Parsed? && p.value.auth.None?
    && p.value.code == CC_FLUSH_CONTEXT && FlushedHandle(p.value.params) == Some(session)
  }

  /** The frame addresses this session, to use it or to flush it. */
  predicate Touches<D>(dev: Device<D>, frame: bytes, session: u32) {
    var p := ReadCommand(dev.handleCount, frame);
    || (p.Parsed? && p.value.auth.Some? && p.value.auth.value.handle == session)
    || Flushes(dev, frame, session)
  }

  /** The session's frames can be read, and nobody else addresses the session. */
  ghost predicate Legible<D>(c: Crypto, dev: Device<D>, x: Ends<D>, a: Action) {
    match a
    case Use(call, authValue, entropy, events) =>
      Honest(events) && Framed(c, dev, call, SignedSession(x.session, entropy), authValue)
    case Other(frame, draw) => !Touches(dev, frame, x.session.handle)
  }

  ghost predicate Proper<D>(c: Crypto, dev: Device<D>, x: Ends<D>, a: Action) {
    Legible(c, dev, x, a) && (a.Use? ==> Expecting(dev, x.tpm.device, a.call))
  }

  /** The command was carried out and the host got an error. */
  ghost predicate LosesReply<D>(c: Crypto, dev: Device<D>, x: Ends<D>, a: Action) {
    a.Use? && LostAnswer(World(x.tpm, a.events), UseOutcome(c, dev, x, a))
  }

  ghost predicate Keeps<D>(tpm: TpmState<D>, after: TpmState<D>, session: u32) {
    session in tpm.sessions ==>
      session in after.sessions && after.sessions[session] == tpm.sessions[session]
  }

  lemma PlainKeepsOthers<D>(c: Crypto, dev: Device<D>, tpm: TpmState<D>, cmd: Command, draw: Draw, session: u32)
    requires !(cmd.code == CC_FLUSH_CONTEXT && FlushedHandle(cmd.params) == Some(session))
    ensures Keeps(tpm, ServePlain(c, dev, tpm, cmd, draw).tpm, session)
  {
  }

  lemma PasswordKeepsSessions<D>(dev: Device<D>, tpm: TpmState<D>, cmd: Command)
    requires cmd.auth.Some? && cmd.handles != []
    ensures ServePassword(dev, tpm, cmd).tpm.sessions == tpm.sessions
  {
  }

  lemma SessionKeepsOthers<D>(c: Crypto, dev: Device<D>, tpm: TpmState<D>, frame: bytes, cmd: Command, draw: Draw,
                              session: u32)
    requires cmd.auth.Some? && cmd.handles != [] && cmd.auth.value.handle != session
    ensures Keeps(tpm, ServeSession(c, dev, tpm, frame, cmd, draw).tpm, session)
  {
  }

  /** A frame that does not address a session leaves it alone. */
  lemma ServeKeepsOthers<D>(c: Crypto, dev: Device<D>, tpm: TpmState<D>, frame: bytes, draw: Draw, session: u32)
    requires !Touches(dev, frame, session)
    ensures Keeps(tpm, Serve(c, dev, tpm, frame, draw).tpm, session)
  {
    var p := ReadCommand(dev.handleCount, frame);
    if p.Parsed? {
      var cmd := p.value;
      if cmd.auth.None? {
        PlainKeepsOthers(c, dev, tpm, cmd, draw, session);
      } else if cmd.handles != [] && cmd.auth.value.handle == RS_PW {
        PasswordKeepsSessions(dev, tpm, cmd);
      } else if cmd.handles != [] {
        SessionKeepsOthers(c, dev, tpm, frame, cmd, draw, session);
      }
    }
  }

  lemma ActKeepsStep<D(!new)>(c: Crypto, dev: Device<D>, x: Ends<D>, a: Action)
    requires InStep(x.session, x.tpm) && Proper(c, dev, x, a)
    ensures var x' := Act(c, dev, x, a);
      InStep(x'.session, x'.tpm) || LosesReply(c, dev, x, a)
    ensures a.Use? ==> Act(c, dev, x, a).session == x.session.(nonceTpm := Act(c, dev, x, a).session.nonceTpm,
                                                               nonceCaller := a.entropy)
  {
    match a {
      case Use(call, authValue, entropy, events) =>
        HonestCall(c, dev, World(x.tpm, events), call, x.session, authValue, entropy);
      case Other(frame, draw) =>
        ServeKeepsOthers(c, dev, x.tpm, frame, draw, x.session.handle);
    }
  }

  /** Every action is proper in the state it meets, up to the first lost reply. */
  ghost predicate ProperRun<D>(c: Crypto, dev: Device<D>, x: Ends<D>, actions: seq<Action>)
    decreases |actions|
  {
    actions == [] ||
    (&& Proper(c, dev, x, actions[0])
     && (LosesReply(c, dev, x, actions[0]) || ProperRun(c, dev, Act(c, dev, x, actions[0]), actions[1..])))
  }

  /** Some action of the run loses the reply to a command carried out. */
  ghost predicate LosesSome<D>(c: Crypto, dev: Device<D>, x: Ends<D>, actions: seq<Action>)
    decreases |actions|
  {
    actions != [] &&
    (LosesReply(c, dev, x, actions[0]) || LosesSome(c, dev, Act(c, dev, x, actions[0]), actions[1..]))
  }

  /** Over every run of session commands mixed with warnings, errors, lost
      messages and other callers' traffic, the two nonces agree unless the
      reply to a command that was carried out got lost. */
  lemma {:induction false} LockStepRun<D(!new)>(c: Crypto, dev: Device<D>, x: Ends<D>, actions: seq<Action>)
    requires InStep(x.session, x.tpm) && ProperRun(c, dev, x, actions)
    ensures var end := ActAll(c, dev, x, actions);
      InStep(end.session, end.tpm) || LosesSome(c, dev, x, actions)
    decreases |actions|
  {
    if actions != [] && !LosesReply(c, dev, x, actions[0]) {
      ActKeepsStep(c, dev, x, actions[0]);
      LockStepRun(c, dev, Act(c, dev, x, actions[0]), actions[1..]);
    }
  }

  // ---------- runs out of step ----------

  /** No HMAC over the old nonce is by chance the right one. */
  ghost predicate Late<D>(c: Crypto, dev: Device<D>, x: Ends<D>, a: Action) {
    && Legible(c, dev, x, a)
    && (a.Use? && x.session.handle in x.tpm.sessions ==>
          Dated(c, dev, x.tpm, a.call, SignedSession(x.session, a.entropy), a.authValue))
  }

  ghost predicate LateRun<D>(c: Crypto, dev: Device<D>, x: Ends<D>, actions: seq<Action>)
    decreases |actions|
  {
    actions == [] || (Late(c, dev, x, actions[0]) && LateRun(c, dev, Act(c, dev, x, actions[0]), actions[1..]))
  }

  /** Every call of the host fails, and leaves the TPM exactly as it was. */
  ghost predicate FailsAll<D>(c: Crypto, dev: Device<D>, x: Ends<D>, actions: seq<Action>)
    decreases |actions|
  {
    actions == [] ||
    (&& (actions[0].Use? ==>
           && UseOutcome(c, dev, x, actions[0]).result.Failure?
           && Act(c, dev, x, actions[0]).tpm == x.tpm)
     && FailsAll(c, dev, Act(c, dev, x, actions[0]), actions[1..]))
  }

  /** Both ends hold on to the nonces they have. */
  ghost predicate Stuck<D>(x: Ends<D>, x': Ends<D>) {
    && x'.session == x.session.(nonceCaller := x'.session.nonceCaller)
    && Keeps(x.tpm, x'.tpm, x.session.handle)
  }

  lemma ActStaysOut<D(!new)>(c: Crypto, dev: Device<D>, x: Ends<D>, a: Action)
    requires OutOfStep(x.session, x.tpm) && IsHash(x.session.alg) && Late(c, dev, x, a)
    ensures Stuck(x, Act(c, dev, x, a))
    ensures a.Use? ==> UseOutcome(c, dev, x, a).result.Failure? && Act(c, dev, x, a).tpm == x.tpm
  {
    match a {
      case Use(call, authValue, entropy, events) =>
        OutOfStepFails(c, dev, World(x.tpm, events), call, x.session, authValue, entropy);
      case Other(frame, draw) =>
        ServeKeepsOthers(c, dev, x.tpm, frame, draw, x.session.handle);
    }
  }

  /** Once out of step, always out of step: whatever else reaches the TPM, until
      somebody flushes the session every call of the host fails and the TPM does
      nothing about it, unless two HMACs collide. */
  lemma {:induction false} OutOfStepRun<D(!new)>(c: Crypto, dev: Device<D>, x: Ends<D>, actions: seq<Action>)
    requires OutOfStep(x.session, x.tpm) && IsHash(x.session.alg) && LateRun(c, dev, x, actions)
    ensures FailsAll(c, dev, x, actions)
    ensures var end := ActAll(c, dev, x, actions);
      && OutOfStep(end.session, end.tpm) && Stuck(x, end)
      && ((forall i | 0 <= i < |actions| :: actions[i].Use?) ==> end.tpm == x.tpm)
    decreases |actions|
  {
    if actions != [] {
      ActStaysOut(c, dev, x, actions[0]);
      OutOfStepRun(c, dev, Act(c, dev, x, actions[0]), actions[1..]);
    }
  }
}
