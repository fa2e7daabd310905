/**
 A call over a transport that may do anything: which frames reach the TPM in its
 course, and what is true of TPM and host afterwards whatever these were.
 */
module AnyTransport {
  import opened Basics
  import opened Constants
  import opened Marshal
  import opened CryptoCore
  import opened Sessions
  import opened Dispatcher
  import opened Frames
  import opened ReferenceTpm
  import opened Exchanges
  import opened Delivery
  import opened LockStep
  import opened TpmInvariants

  // ---------- what reaches the TPM ----------

  /** The frames that one transmission makes the TPM serve. */
  function Arriving(event: Event, frame: bytes): seq<Arrival> {
    match event
    case Deliver(draw) => [Arrival(frame, draw)]
    case LoseReply(draw) => [Arrival(frame, draw)]
    case LoseRequest => []
    case Warn(_) => []
    case Tamper(frames, _) => frames
  }

  /** The frames served until so many events were left. */
  function Handed(schedule: seq<Event>, left: nat, frame: bytes): seq<Arrival> {
    if |schedule| <= left then [] else Arriving(schedule[0], frame) + Handed(schedule[1..], left, frame)
  }

  /** While the world went from w to end, the TPM served what the events used up
      made it serve, and nothing else. */
  ghost predicate Took<D>(c: Crypto, dev: Device<D>, w: World<D>, end: World<D>, frame: bytes) {
    && |end.schedule| <= |w.schedule|
    && end.tpm == ServeAll(c, dev, w.tpm, Handed(w.schedule, |end.schedule|, frame))
  }

  lemma CarryTook<D>(c: Crypto, dev: Device<D>, w: World<D>, frame: bytes)
    requires w.schedule != []
    ensures var next := Carry(c, dev, w, frame).0;
      next.schedule == w.schedule[1..] && next.tpm == ServeAll(c, dev, w.tpm, Arriving(w.schedule[0], frame))
  {
    var event := w.schedule[0];
    if event.Deliver? || event.LoseReply? {
      assert [Arrival(frame, event.draw)][..0] == [];
    }
  }

  lemma TookMore<D>(c: Crypto, dev: Device<D>, w: World<D>, next: World<D>, end: World<D>, frame: bytes)
    requires w.schedule != [] && next.schedule == w.schedule[1..]
    requires next.tpm == ServeAll(c, dev, w.tpm, Arriving(w.schedule[0], frame)) && Took(c, dev, next, end, frame)
    ensures Took(c, dev, w, end, frame)
  {
    ServeAllAppend(c, dev, w.tpm, Arriving(w.schedule[0], frame), Handed(next.schedule, |end.schedule|, frame));
  }

  lemma TookNothing<D>(c: Crypto, dev: Device<D>, w: World<D>, frame: bytes)
    ensures Took(c, dev, w, w, frame)
  {
  }

  lemma CarryTookMore<D>(c: Crypto, dev: Device<D>, w: World<D>, next: World<D>, end: World<D>, frame: bytes)
    requires next == Carry(c, dev, w, frame).0 && Took(c, dev, next, end, frame)
    ensures Took(c, dev, w, end, frame)
  {
    if w.schedule != [] {
      CarryTook(c, dev, w, frame);
      TookMore(c, dev, w, next, end, frame);
    }
  }

  lemma {:induction false} ExchangeTook<D(!new)>(
    c: Crypto, dev: Device<D>, step: Step<World<D>>, judge: Judge, w: World<D>, frame: bytes, view: AuthView,
    attempt: nat, sent: seq<bytes>)
    requires Links(step, c, dev) && attempt <= MAX_TRANSIENT_RETRIES && PatientJudge(judge, view)
    ensures Took(c, dev, w, Exchange(step, judge, w, frame, view, attempt, sent).state, frame)
    decreases MAX_TRANSIENT_RETRIES - attempt
  {
    var (next, reply) := Carry(c, dev, w, frame);
    assert step(w, frame) == (next, reply);
    if reply.Success? && judge(reply.value, view).again && attempt < MAX_TRANSIENT_RETRIES {
      ExchangeTook(c, dev, step, judge, next, frame, view, attempt + 1, sent + [frame]);
      ExchangeAgain(step, judge, w, frame, view, attempt, sent, next, view, sent + [frame]);
      var end := Exchange(step, judge, next, frame, view, attempt + 1, sent + [frame]).state;
      CarryTookMore(c, dev, w, next, end, frame);
    } else {
      LastTook(c, dev, step, judge, w, frame, view, attempt, sent);
    }
  }

  lemma LastTook<D>(
    c: Crypto, dev: Device<D>, step: Step<World<D>>, judge: Judge, w: World<D>, frame: bytes, view: AuthView,
    attempt: nat, sent: seq<bytes>)
    requires step(w, frame) == Carry(c, dev, w, frame) && attempt <= MAX_TRANSIENT_RETRIES
    requires var reply := step(w, frame).1;
      reply.Failure? || !judge(reply.value, view).again || attempt == MAX_TRANSIENT_RETRIES
    ensures Took(c, dev, w, Exchange(step, judge, w, frame, view, attempt, sent).state, frame)
  {
    var (next, reply) := step(w, frame);
    if reply.Failure? {
      ExchangeLost(step, judge, w, frame, view, attempt, sent, next, reply.error);
    } else {
      ExchangeStops(step, judge, w, frame, view, attempt, sent, next, reply.value);
    }
    TookNothing(c, dev, next, frame);
    CarryTookMore(c, dev, w, next, next, frame);
  }

  // ---------- fresh nonces, and nobody flushing ----------

  ghost function DrawnBy(event: Event): set<bytes> {
    match event
    case Deliver(draw) => {draw.nonce}
    case LoseReply(draw) => {draw.nonce}
    case Tamper(frames, _) => DrawnNonces(frames)
    case _ => {}
  }

  ghost function DrawnIn(schedule: seq<Event>): set<bytes> {
    if schedule == [] then {} else DrawnBy(schedule[0]) + DrawnIn(schedule[1..])
  }

  ghost predicate FreshEvent(event: Event, used: set<bytes>) {
    match event
    case Deliver(draw) => draw.nonce !in used
    case LoseReply(draw) => draw.nonce !in used
    case Tamper(frames, _) => FreshDraws(frames, used)
    case _ => true
  }

  /** The TPM's random nonces never repeat. */
  ghost predicate FreshSchedule(schedule: seq<Event>, used: set<bytes>) {
    schedule == [] || (FreshEvent(schedule[0], used) && FreshSchedule(schedule[1..], used + DrawnBy(schedule[0])))
  }

  /** Nobody flushes the session; flushing needs no authorization. */
  ghost predicate NeverFlushed<D>(dev: Device<D>, schedule: seq<Event>, session: u32) {
    forall i | 0 <= i < |schedule| && schedule[i].Tamper? :: FlushFree(dev, schedule[i].frames, session)
  }

  lemma DrawnAppend(a: seq<Arrival>, b: seq<Arrival>)
    ensures DrawnNonces(a + b) == DrawnNonces(a) + DrawnNonces(b)
  {
    forall x | x in DrawnNonces(a) + DrawnNonces(b) ensures x in DrawnNonces(a + b) {
      if x in DrawnNonces(a) {
        var i :| 0 <= i < |a| && a[i].draw.nonce == x;
        assert (a + b)[i] == a[i];
      } else {
        var i :| 0 <= i < |b| && b[i].draw.nonce == x;
        assert (a + b)[|a| + i] == b[i];
      }
    }
  }

  lemma FreshAppend(a: seq<Arrival>, b: seq<Arrival>, used: set<bytes>)
    requires FreshDraws(a, used) && FreshDraws(b, used + DrawnNonces(a))
    ensures FreshDraws(a + b, used)
  {
    forall i, j | 0 <= i < j < |a + b| ensures (a + b)[i].draw.nonce != (a + b)[j].draw.nonce {
      if i < |a| <= j {
        assert a[i].draw.nonce in DrawnNonces(a);
        assert b[j - |a|].draw.nonce !in used + DrawnNonces(a);
      }
    }
  }

  lemma ArrivingFresh(event: Event, frame: bytes, used: set<bytes>)
    requires FreshEvent(event, used)
    ensures FreshDraws(Arriving(event, frame), used) && DrawnNonces(Arriving(event, frame)) == DrawnBy(event)
  {
    if event.Deliver? || event.LoseReply? {
      assert Arriving(event, frame)[0].draw == event.draw;
    }
  }

  /** What a fresh schedule makes the TPM serve is served with fresh nonces. */
  lemma {:induction false} HandedFresh(schedule: seq<Event>, left: nat, frame: bytes, used: set<bytes>)
    requires FreshSchedule(schedule, used)
    ensures FreshDraws(Handed(schedule, left, frame), used)
    ensures DrawnNonces(Handed(schedule, left, frame)) <= DrawnIn(schedule)
  {
    if |schedule| > left {
      var first, rest := Arriving(schedule[0], frame), Handed(schedule[1..], left, frame);
      ArrivingFresh(schedule[0], frame, used);
      HandedFresh(schedule[1..], left, frame, used + DrawnBy(schedule[0]));
      DrawnAppend(first, rest);
      FreshAppend(first, rest, used);
    }
  }

  lemma ArrivingFlushFree<D>(dev: Device<D>, event: Event, frame: bytes, session: u32)
    requires !Flushes(dev, frame, session) && (event.Tamper? ==> FlushFree(dev, event.frames, session))
    ensures FlushFree(dev, Arriving(event, frame), session)
  {
    if event.Deliver? || event.LoseReply? {
      assert forall i | 0 <= i < |Arriving(event, frame)| :: Arriving(event, frame)[i].frame == frame;
    }
  }

  lemma FlushFreeAppend<D>(dev: Device<D>, a: seq<Arrival>, b: seq<Arrival>, session: u32)
    requires FlushFree(dev, a, session) && FlushFree(dev, b, session)
    ensures FlushFree(dev, a + b, session)
  {
  }

  lemma NeverFlushedRest<D>(dev: Device<D>, schedule: seq<Event>, session: u32)
    requires schedule != [] && NeverFlushed(dev, schedule, session)
    ensures schedule[0].Tamper? ==> FlushFree(dev, schedule[0].frames, session)
    ensures NeverFlushed(dev, schedule[1..], session)
  {
  }

  lemma {:induction false} HandedFlushFree<D>(dev: Device<D>, schedule: seq<Event>, left: nat, frame: bytes,
                                              session: u32)
    requires NeverFlushed(dev, schedule, session) && !Flushes(dev, frame, session)
    ensures FlushFree(dev, Handed(schedule, left, frame), session)
  {
    if |schedule| > left {
      NeverFlushedRest(dev, schedule, session);
      ArrivingFlushFree(dev, schedule[0], frame, session);
      HandedFlushFree(dev, schedule[1..], left, frame, session);
      FlushFreeAppend(dev, Arriving(schedule[0], frame), Handed(schedule[1..], left, frame), session);
    }
  }

  // ---------- a call over any transport ----------

  /** A frame with the sessions tag flushes nothing. */
  lemma SignedFlushesNothing<D>(dev: Device<D>, call: Call, area: bytes, session: u32)
    ensures !Flushes(dev, Frame(call, Some(area)), session)
  {
    var body := Body(call, Some(area));
    ReadHeaderInverts(ST_SESSIONS, LowU32(10 + LowU32(|body|)), call.code, body);
  }

  lemma SinceStart<D>(c: Crypto, dev: Device<D>, tpm: TpmState<D>, session: u32, used: set<bytes>, calm: bool)
    requires session in tpm.sessions && Sound(c, dev, tpm, used)
    ensures Since(c, dev, tpm, tpm, session, used, {}, calm)
  {
    assert used + {} == used;
    LatestOfNone(tpm.log, |tpm.log|, session, tpm.sessions[session].nonceTpm);
    assert Intact(tpm, tpm, session);
  }

  lemma TookSince<D>(c: Crypto, dev: Device<D>, w: World<D>, end: World<D>, frame: bytes, session: u32,
                     used: set<bytes>, calm: bool)
    requires session in w.tpm.sessions && Sound(c, dev, w.tpm, used) && FreshSchedule(w.schedule, used)
    requires Took(c, dev, w, end, frame) && !Flushes(dev, frame, session)
    requires calm ==> NeverFlushed(dev, w.schedule, session)
    ensures Since(c, dev, w.tpm, end.tpm, session, used, DrawnIn(w.schedule), calm)
  {
    var arrivals := Handed(w.schedule, |end.schedule|, frame);
    HandedFresh(w.schedule, |end.schedule|, frame, used);
    if calm {
      HandedFlushFree(dev, w.schedule, |end.schedule|, frame, session);
    }
    SinceStart(c, dev, w.tpm, session, used, calm);
    assert used + {} == used && {} + DrawnNonces(arrivals) == DrawnNonces(arrivals);
    ServeAllSince(c, dev, w.tpm, w.tpm, arrivals, session, used, {}, calm);
    SoundWiden(c, dev, end.tpm, used + DrawnNonces(arrivals), used + DrawnIn(w.schedule));
  }

  lemma ServedSound<D>(c: Crypto, dev: Device<D>, tpm: TpmState<D>, frames: seq<Arrival>, used: set<bytes>,
                       drawn: set<bytes>)
    requires Sound(c, dev, tpm, used) && FreshDraws(frames, used) && DrawnNonces(frames) <= drawn
    ensures Sound(c, dev, ServeAll(c, dev, tpm, frames), used + drawn)
    ensures tpm.log <= ServeAll(c, dev, tpm, frames).log
  {
    ServeAllSound(c, dev, tpm, frames, used);
    SoundWiden(c, dev, ServeAll(c, dev, tpm, frames), used + DrawnNonces(frames), used + drawn);
    ServeAllExtends(c, dev, tpm, frames);
  }

  /** Whatever has become of its sessions, a TPM stays sound and forgets nothing. */
  lemma TookSound<D>(c: Crypto, dev: Device<D>, w: World<D>, end: World<D>, frame: bytes, used: set<bytes>)
    requires Sound(c, dev, w.tpm, used) && FreshSchedule(w.schedule, used) && Took(c, dev, w, end, frame)
    ensures Sound(c, dev, end.tpm, used + DrawnIn(w.schedule)) && w.tpm.log <= end.tpm.log
  {
    HandedFresh(w.schedule, |end.schedule|, frame, used);
    ServedSound(c, dev, w.tpm, Handed(w.schedule, |end.schedule|, frame), used, DrawnIn(w.schedule));
  }

  /** The result is the verdict on the last reply, if there was one. */
  ghost predicate LastDecides<S>(c: Crypto, call: Call, view: AuthView, o: Outcome<S>) {
    if o.last.Success? then ParseResponse(c, call, o.last.value, view) == (o.result, o.auth)
    else o.result == Failure(o.last.error) && o.auth == view
  }

  lemma ExchangeDecides<D(!new)>(c: Crypto, dev: Device<D>, w: World<D>, call: Call, frame: bytes, view: AuthView)
    ensures var o := Exchange(Link(c, dev), Judging(c, call), w, frame, view, 0, []);
      Took(c, dev, w, o.state, frame) && LastDecides(c, call, view, o)
  {
    JudgingIsPatient(c, call, view);
    ExchangeTook(c, dev, Link(c, dev), Judging(c, call), w, frame, view, 0, []);
    LastReplyDecides(Link(c, dev), Judging(c, call), w, frame, view, 0, []);
  }

  /** Over any transport whatsoever: what the TPM has served is what the events
      used up made it serve, its invariants hold on, a session nobody flushes
      changes by its own records only, and the result is the verdict on the last
      reply. */
  lemma AnyExchange<D(!new)>(c: Crypto, dev: Device<D>, w: World<D>, call: Call, frame: bytes, session: u32,
                             view: AuthView, used: set<bytes>)
    requires session in w.tpm.sessions && Sound(c, dev, w.tpm, used) && FreshSchedule(w.schedule, used)
    requires !Flushes(dev, frame, session)
    ensures var o := Exchange(Link(c, dev), Judging(c, call), w, frame, view, 0, []);
      && Since(c, dev, w.tpm, o.state.tpm, session, used, DrawnIn(w.schedule), NeverFlushed(dev, w.schedule, session))
      && Took(c, dev, w, o.state, frame) && LastDecides(c, call, view, o)
  {
    var end := Exchange(Link(c, dev), Judging(c, call), w, frame, view, 0, []).state;
    ExchangeDecides(c, dev, w, call, frame, view);
    TookSince(c, dev, w, end, frame, session, used, NeverFlushed(dev, w.schedule, session));
  }

  /** A session call: the frame signed at the start is what is transmitted, and
      the last reply decides. */
  lemma SessionCallTook<D(!new)>(c: Crypto, dev: Device<D>, w: World<D>, call: Call, s: SessionState,
                                 authValue: bytes, entropy: bytes)
    requires IsHash(s.alg)
    ensures var o := RunCall(c, Link(c, dev), w, call, SessionView(s, authValue), entropy);
      var s' := SignedSession(s, entropy);
      && Took(c, dev, w, o.state, SignedFrame(c, call, s', authValue))
      && LastDecides(c, call, SessionView(s', authValue), o)
  {
    var s' := SignedSession(s, entropy);
    SameFrame(c, call, s', authValue);
    ExchangeDecides(c, dev, w, call, SignedFrame(c, call, s', authValue), SessionView(s', authValue));
  }

  /** A session call over any transport.  Whatever happened, the TPM's
      invariants hold on and the session is the one signed unless a reply was
      believed; and if no command of the session was carried out meanwhile and
      nobody flushed it, the TPM's session is untouched. */
  lemma CallOverAnyTransport<D(!new)>(
    c: Crypto, dev: Device<D>, w: World<D>, call: Call, s: SessionState, authValue: bytes, entropy: bytes,
    used: set<bytes>)
    requires InStep(s, w.tpm) && Sound(c, dev, w.tpm, used) && FreshSchedule(w.schedule, used)
    ensures var o := RunCall(c, Link(c, dev), w, call, SessionView(s, authValue), entropy);
      var view, calm := SessionView(SignedSession(s, entropy), authValue), NeverFlushed(dev, w.schedule, s.handle);
      && Since(c, dev, w.tpm, o.state.tpm, s.handle, used, DrawnIn(w.schedule), calm)
      && (if o.last.Success? then ParseResponse(c, call, o.last.value, view) == (o.result, o.auth)
          else o.result.Failure? && o.auth == view)
      && (calm && NoneOf(o.state.tpm.log, |w.tpm.log|, s.handle) ==> InStep(SignedSession(s, entropy), o.state.tpm))
  {
    var s' := SignedSession(s, entropy);
    var o := RunCall(c, Link(c, dev), w, call, SessionView(s, authValue), entropy);
    var area := EntryBytes(SessionEntry(c, call, s', authValue));
    SignedFlushesNothing(dev, call, area, s.handle);
    AnyExchange(c, dev, w, call, Frame(call, Some(area)), s.handle, SessionView(s', authValue), used);
    if NoneOf(o.state.tpm.log, |w.tpm.log|, s.handle) {
      LatestOfNone(o.state.tpm.log, |w.tpm.log|, s.handle, s.nonceTpm);
    }
  }
}
