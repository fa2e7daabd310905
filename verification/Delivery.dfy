/**
 Any command, however authorized, over a transport that does not lie: it is
 served at most once, and a result is the TPM's answer to it.
 */
module Delivery {
  import opened Basics
  import opened Constants
  import opened Marshal
  import opened CryptoCore
  import opened Sessions
  import opened ResponseCodes
  import opened Dispatcher
  import opened Frames
  import opened ReferenceTpm
  import opened Exchanges

  /** A transport that loses messages and warns, but never makes up a reply. */
  predicate Honest(schedule: seq<Event>) {
    forall i | 0 <= i < |schedule| :: !schedule[i].Tamper?
  }

  predicate SuccessHeader(reply: bytes) {
    ReadReplyHeader(reply).Parsed? && ReadReplyHeader(reply).value.rc == 0
  }

  lemma ReplyFrameSucceeds(handles: seq<u32>, params: bytes, auth: Option<AuthResponse>)
    ensures SuccessHeader(ReplyFrame(handles, params, auth, []))
  {
    var body := ReplyBody(handles, params, auth, []);
    ReadHeaderInverts(ReplyTag(auth), LowU32(10 + |body|), 0, body);
  }

  /** A step that changes the TPM is answered with success. */
  lemma ChangeSucceeds<D>(c: Crypto, dev: Device<D>, tpm: TpmState<D>, frame: bytes, draw: Draw)
    ensures var served := Serve(c, dev, tpm, frame, draw);
      served.tpm == tpm || SuccessHeader(served.reply)
  {
    var p := ReadCommand(dev.handleCount, frame);
    if p.Parsed? {
      var cmd := p.value;
      if cmd.auth.None? {
        PlainChangeSucceeds(c, dev, tpm, cmd, draw);
      } else if cmd.handles != [] && cmd.auth.value.handle == RS_PW {
        DeviceChangeSucceeds(dev, tpm, cmd, true, Some(PW_ENTRY));
      } else if cmd.handles != [] {
        SessionChangeSucceeds(c, dev, tpm, frame, cmd, draw);
      }
    }
  }

  lemma DeviceChangeSucceeds<D>(dev: Device<D>, tpm: TpmState<D>, cmd: Command, authorized: bool,
                                entry: Option<AuthResponse>)
    ensures var served := ServeOnDevice(dev, tpm, cmd, authorized, entry);
      served.tpm == tpm || SuccessHeader(served.reply)
  {
    var answer := dev.exec(tpm.device, authorized, cmd.code, cmd.handles, cmd.params).1;
    if answer.Done? {
      ReplyFrameSucceeds(answer.handles, answer.params, entry);
    }
  }

  lemma PlainChangeSucceeds<D>(c: Crypto, dev: Device<D>, tpm: TpmState<D>, cmd: Command, draw: Draw)
    ensures var served := ServePlain(c, dev, tpm, cmd, draw);
      served.tpm == tpm || SuccessHeader(served.reply)
  {
    ReplyFrameSucceeds([draw.handle], BufferBytes(draw.nonce), None);
    ReplyFrameSucceeds([], [], None);
    DeviceChangeSucceeds(dev, tpm, cmd, false, None);
  }

  lemma SessionChangeSucceeds<D>(c: Crypto, dev: Device<D>, tpm: TpmState<D>, frame: bytes, cmd: Command, draw: Draw)
    requires cmd.auth.Some? && cmd.handles != []
    ensures var served := ServeSession(c, dev, tpm, frame, cmd, draw);
      served.tpm == tpm || SuccessHeader(served.reply)
  {
    var served := ServeSession(c, dev, tpm, frame, cmd, draw);
    if served.tpm != tpm {
      var (device, answer) := dev.exec(tpm.device, true, cmd.code, cmd.handles, cmd.params);
      var e := Pending(dev, tpm, frame, cmd, answer, draw);
      assert served.reply == EntryReply(c, e);
      ReplyFrameSucceeds(e.handles, e.params, Some(ReplyEntry(c, e)));
    }
  }

  /** A reply that asks to resubmit comes from a TPM that did nothing. */
  lemma AgainUnserved<D>(c: Crypto, dev: Device<D>, tpm: TpmState<D>, call: Call, frame: bytes, draw: Draw,
                         view: AuthView, judge: Judge)
    requires Judges(judge, c, call)
    ensures var served := Serve(c, dev, tpm, frame, draw);
      judge(served.reply, view).again ==> served.tpm == tpm && judge(served.reply, view).auth == view
  {
    var reply := Serve(c, dev, tpm, frame, draw).reply;
    ChangeSucceeds(c, dev, tpm, frame, draw);
    AgainExactly(c, call, reply, view);
    ghost var judged := Judged(c, call, reply, view);
  }

  /** Nothing was served, and the host knows that nothing came of it. */
  ghost predicate NotServed<D>(tpm: TpmState<D>, view: AuthView, o: Outcome<World<D>>) {
    o.state.tpm == tpm && o.result.Failure? && o.auth == view
  }

  /** Served once, and the host has the TPM's answer or lost it on the way. */
  ghost predicate ServedWith<D>(c: Crypto, dev: Device<D>, tpm: TpmState<D>, call: Call, frame: bytes,
                                view: AuthView, o: Outcome<World<D>>, draw: Draw)
  {
    var served := Serve(c, dev, tpm, frame, draw);
    && o.state.tpm == served.tpm
    && ((o.result == Failure(Unreachable) && o.auth == view)
        || ParseResponse(c, call, served.reply, view) == (o.result, o.auth))
  }

  ghost predicate AtMostOnce<D>(c: Crypto, dev: Device<D>, tpm: TpmState<D>, call: Call, frame: bytes,
                                view: AuthView, o: Outcome<World<D>>)
  {
    NotServed(tpm, view, o) || exists draw :: ServedWith(c, dev, tpm, call, frame, view, o, draw)
  }

  /** Over an honest transport a frame has its effect at most once, however
      often it is resubmitted, and a success is the TPM's answer to it. */
  lemma {:induction false} ServedAtMostOnce<D(!new)>(
    c: Crypto, dev: Device<D>, step: Step<World<D>>, w: World<D>, call: Call, frame: bytes, view: AuthView,
    attempt: nat, sent: seq<bytes>, judge: Judge)
    requires Links(step, c, dev) && Judges(judge, c, call)
    requires Honest(w.schedule) && attempt <= MAX_TRANSIENT_RETRIES
    ensures AtMostOnce(c, dev, w.tpm, call, frame, view, Exchange(step, judge, w, frame, view, attempt, sent))
    decreases MAX_TRANSIENT_RETRIES - attempt
  {
    var (next, reply) := Carry(c, dev, w, frame);
    if reply.Success? && judge(reply.value, view).again && attempt < MAX_TRANSIENT_RETRIES {
      assert step(w, frame) == (next, reply);
      AgainUncarried(c, dev, w, call, frame, view, next, reply.value, judge);
      ServedAtMostOnce(c, dev, step, next, call, frame, view, attempt + 1, sent + [frame], judge);
      ExchangeAgain(step, judge, w, frame, view, attempt, sent, next, view, sent + [frame]);
    } else {
      LastAttemptOnce(c, dev, step, w, call, frame, view, attempt, sent, judge);
    }
  }

  lemma LastAttemptOnce<D(!new)>(
    c: Crypto, dev: Device<D>, step: Step<World<D>>, w: World<D>, call: Call, frame: bytes, view: AuthView,
    attempt: nat, sent: seq<bytes>, judge: Judge)
    requires Links(step, c, dev) && Judges(judge, c, call)
    requires Honest(w.schedule) && attempt <= MAX_TRANSIENT_RETRIES
    requires var reply := Carry(c, dev, w, frame).1;
      reply.Failure? || !judge(reply.value, view).again || attempt == MAX_TRANSIENT_RETRIES
    ensures AtMostOnce(c, dev, w.tpm, call, frame, view, Exchange(step, judge, w, frame, view, attempt, sent))
  {
    var o := Exchange(step, judge, w, frame, view, attempt, sent);
    var (next, reply) := Carry(c, dev, w, frame);
    assert step(w, frame) == (next, reply);
    if reply.Failure? {
      ExchangeLost(step, judge, w, frame, view, attempt, sent, next, reply.error);
      LostOnce(c, dev, w, call, frame, view, o);
    } else {
      ghost var judged := Judged(c, call, reply.value, view);
      ExchangeStops(step, judge, w, frame, view, attempt, sent, next, reply.value);
      StoppedOnce(c, dev, w, call, frame, view, o, reply.value);
    }
  }

  lemma AgainUncarried<D>(c: Crypto, dev: Device<D>, w: World<D>, call: Call, frame: bytes, view: AuthView,
                          next: World<D>, reply: bytes, judge: Judge)
    requires Honest(w.schedule) && Carry(c, dev, w, frame) == (next, Success(reply))
    requires Judges(judge, c, call) && judge(reply, view).again
    ensures next.tpm == w.tpm && Honest(next.schedule) && judge(reply, view).auth == view
  {
    var event := w.schedule[0];
    if event.Deliver? {
      AgainUnserved(c, dev, w.tpm, call, frame, event.draw, view, judge);
    } else {
      ghost var judged := Judged(c, call, reply, view);
      AgainExactly(c, call, reply, view);
    }
  }

  lemma LostOnce<D>(c: Crypto, dev: Device<D>, w: World<D>, call: Call, frame: bytes, view: AuthView,
                    o: Outcome<World<D>>)
    requires Honest(w.schedule) && Carry(c, dev, w, frame).0 == o.state
    requires Carry(c, dev, w, frame).1.Failure? && o.result == Failure(Carry(c, dev, w, frame).1.error)
    requires o.auth == view
    ensures AtMostOnce(c, dev, w.tpm, call, frame, view, o)
  {
    if w.schedule != [] && w.schedule[0].LoseReply? {
      assert ServedWith(c, dev, w.tpm, call, frame, view, o, w.schedule[0].draw);
    }
  }

  lemma StoppedOnce<D>(c: Crypto, dev: Device<D>, w: World<D>, call: Call, frame: bytes, view: AuthView,
                       o: Outcome<World<D>>, reply: bytes)
    requires Honest(w.schedule) && w.schedule != []
    requires Carry(c, dev, w, frame) == (o.state, Success(reply))
    requires ParseResponse(c, call, reply, view) == (o.result, o.auth)
    ensures AtMostOnce(c, dev, w.tpm, call, frame, view, o)
  {
    match w.schedule[0] {
      case Deliver(draw) =>
        assert ServedWith(c, dev, w.tpm, call, frame, view, o, draw);
      case Warn(rc) =>
        ErrorRoundTrip(call.respHandles, rc);
        assert NotServed(w.tpm, view, o);
      case _ =>
        assert false;
    }
  }

  /** The same for a whole call, from authorization on. */
  lemma CallServedAtMostOnce<D(!new)>(
    c: Crypto, dev: Device<D>, w: World<D>, call: Call, auth: AuthView, entropy: bytes,
    view: AuthView, area: Option<bytes>)
    requires Authorize(c, call, auth, entropy) == Success((view, area)) && Honest(w.schedule)
    ensures AtMostOnce(c, dev, w.tpm, call, Frame(call, area), view, RunCall(c, Link(c, dev), w, call, auth, entropy))
  {
    ServedAtMostOnce(c, dev, Link(c, dev), w, call, Frame(call, area), view, 0, [], Judging(c, call));
  }

  lemma JudgedError(c: Crypto, call: Call, auth: AuthView, judge: Judge, rc: ErrorCode)
    requires Judges(judge, c, call)
    ensures judge(ErrorFrame(rc), auth).result == Failure(Error.Code(rc))
    ensures judge(ErrorFrame(rc), auth).auth == auth
  {
    ghost var judged := Judged(c, call, ErrorFrame(rc), auth);
    ErrorRoundTrip(call.respHandles, rc);
  }

  lemma JudgedTransient(c: Crypto, call: Call, auth: AuthView, judge: Judge, rc: ErrorCode)
    requires Judges(judge, c, call) && IsRetryCode(rc)
    ensures judge(ErrorFrame(rc), auth).again
  {
    TransientExactly(rc);
    ghost var judged := Judged(c, call, ErrorFrame(rc), auth);
    ErrorRoundTrip(call.respHandles, rc);
  }

  function Warnings(codes: seq<ErrorCode>): seq<Event> {
    seq(|codes|, i requires 0 <= i < |codes| => Warn(codes[i]))
  }

  /** The step of a transport is what the link between both ends does. */
  ghost predicate Links<D(!new)>(step: Step<World<D>>, c: Crypto, dev: Device<D>) {
    forall w, frame {:trigger Carry(c, dev, w, frame)} :: step(w, frame) == Carry(c, dev, w, frame)
  }

  /** Warnings use up attempts and nothing else. */
  lemma {:induction false} WarningsSkipped<D(!new)>(
    c: Crypto, dev: Device<D>, step: Step<World<D>>, w: World<D>, later: World<D>, call: Call, frame: bytes,
    view: AuthView, attempt: nat, sent: seq<bytes>, judge: Judge, codes: seq<ErrorCode>)
    requires Links(step, c, dev) && Judges(judge, c, call)
    requires attempt + |codes| <= MAX_TRANSIENT_RETRIES
    requires forall i | 0 <= i < |codes| :: IsRetryCode(codes[i])
    requires w == World(later.tpm, Warnings(codes) + later.schedule)
    ensures Exchange(step, judge, w, frame, view, attempt, sent)
         == Exchange(step, judge, later, frame, view, attempt + |codes|, sent + Copies(frame, |codes|))
    decreases |codes|
  {
    if codes == [] {
      assert w == later && sent + Copies(frame, 0) == sent;
    } else {
      var next := World(later.tpm, Warnings(codes[1..]) + later.schedule);
      assert Warnings(codes) + later.schedule == [Warn(codes[0])] + next.schedule;
      ResubmitAfterWarning(c, dev, step, w, next, call, frame, view, attempt, sent, judge, codes[0]);
      WarningsSkipped(c, dev, step, next, later, call, frame, view, attempt + 1, sent + [frame], judge, codes[1..]);
      assert sent + [frame] + Copies(frame, |codes| - 1) == sent + Copies(frame, |codes|);
    }
  }

  lemma ResubmitAfterWarning<D(!new)>(
    c: Crypto, dev: Device<D>, step: Step<World<D>>, w: World<D>, later: World<D>, call: Call, frame: bytes,
    view: AuthView, attempt: nat, sent: seq<bytes>, judge: Judge, rc: ErrorCode)
    requires Links(step, c, dev) && Judges(judge, c, call)
    requires IsRetryCode(rc) && attempt < MAX_TRANSIENT_RETRIES
    requires w == World(later.tpm, [Warn(rc)] + later.schedule)
    ensures Exchange(step, judge, w, frame, view, attempt, sent)
         == Exchange(step, judge, later, frame, view, attempt + 1, sent + [frame])
  {
    assert w.schedule[1..] == later.schedule;
    assert Carry(c, dev, w, frame) == (later, Success(ErrorFrame(rc)));
    JudgedError(c, call, view, judge, rc);
    JudgedTransient(c, call, view, judge, rc);
    ExchangeAgain(step, judge, w, frame, view, attempt, sent, later, view, sent + [frame]);
  }

  /** At most 12 warnings and then a delivery. */
  function Delivering<D>(tpm: TpmState<D>, codes: seq<ErrorCode>, draw: Draw): World<D> {
    World(tpm, Warnings(codes) + [Deliver(draw)])
  }

  predicate FewWarnings(codes: seq<ErrorCode>) {
    |codes| <= MAX_TRANSIENT_RETRIES && forall i | 0 <= i < |codes| :: IsRetryCode(codes[i])
  }

  /** Then the call is exactly one step of the TPM and the parse of its reply. */
  lemma DeliveredExactly<D(!new)>(
    c: Crypto, dev: Device<D>, tpm: TpmState<D>, call: Call, auth: AuthView, entropy: bytes,
    view: AuthView, area: Option<bytes>, codes: seq<ErrorCode>, draw: Draw)
    requires Authorize(c, call, auth, entropy) == Success((view, area)) && FewWarnings(codes)
    requires !Judged(c, call, Serve(c, dev, tpm, Frame(call, area), draw).reply, view).again
    ensures var o := RunCall(c, Link(c, dev), Delivering(tpm, codes, draw), call, auth, entropy);
      var served := Serve(c, dev, tpm, Frame(call, area), draw);
      && o.state.tpm == served.tpm
      && (o.result, o.auth) == ParseResponse(c, call, served.reply, view)
  {
    var frame, judge := Frame(call, area), Judging(c, call);
    DeliveredFrame(c, dev, Link(c, dev), tpm, call, frame, view, judge, codes, draw);
    ghost var judged := Judged(c, call, Serve(c, dev, tpm, frame, draw).reply, view);
  }

  lemma DeliveredFrame<D(!new)>(
    c: Crypto, dev: Device<D>, step: Step<World<D>>, tpm: TpmState<D>, call: Call, frame: bytes, view: AuthView,
    judge: Judge, codes: seq<ErrorCode>, draw: Draw)
    requires Links(step, c, dev) && Judges(judge, c, call) && FewWarnings(codes)
    requires !judge(Serve(c, dev, tpm, frame, draw).reply, view).again
    ensures var o := Exchange(step, judge, Delivering(tpm, codes, draw), frame, view, 0, []);
      var served := Serve(c, dev, tpm, frame, draw);
      && o.state.tpm == served.tpm
      && o.result == judge(served.reply, view).result && o.auth == judge(served.reply, view).auth
  {
    var w, later := Delivering(tpm, codes, draw), World(tpm, [Deliver(draw)]);
    var served := Serve(c, dev, tpm, frame, draw);
    WarningsSkipped(c, dev, step, w, later, call, frame, view, 0, [], judge, codes);
    assert later.schedule[1..] == [];
    assert step(later, frame) == Carry(c, dev, later, frame);
    ExchangeStops(step, judge, later, frame, view, |codes|, [] + Copies(frame, |codes|),
                  World(served.tpm, []), served.reply);
  }
}
