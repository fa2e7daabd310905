/**
 The typed commands, through marshalling, authorization, framing, the wire, a
 TPM and back, are calls of the object store.
 */
module EndToEnd {
  import opened Basics
  import opened Constants
  import opened Marshal
  import opened Structures
  import opened CryptoCore
  import opened Sessions
  import opened ResponseCodes
  import opened Dispatcher
  import opened ReferenceTpm
  import opened Exchanges
  import opened LockStep
  import opened Delivery
  import opened Transparency
  import opened SessionCommands
  import opened ObjectCommands
  import opened ObjectStore

  // ---------- the typed commands as calls of the dispatcher ----------

  /** The call that each typed command hands to the dispatcher. */
  function CallOf(op: Op, name: bytes): Call {
    match op
    case OpCreatePrimary(hierarchy, v, template) => CreatePrimaryCall(hierarchy, v, template)
    case OpCreate(parent, v, template) => CreateCall(parent, name, v, template)
    case OpLoad(parent, private, public) => LoadCall(parent, name, private, public)
    case OpUnseal(item) => UnsealCall(item, name)
    case OpFlush(item) => FlushCall(item)
  }

  /** What each typed command makes of the response. */
  function ValueFrom(op: Op, result: Result<RawResponse>): Result<Value>
    requires result.Success? ==> |result.value.handles| == CallOf(op, []).respHandles
  {
    match op
    case OpCreatePrimary(_, _, _) => var r :- PrimaryFrom(result); Success(Primary(r))
    case OpCreate(_, _, _) => var r :- CreatedFrom(result); Success(Created(r))
    case OpLoad(_, _, _) => var r :- LoadedFrom(result); Success(Loaded(r))
    case OpUnseal(_) => var r :- UnsealedFrom(result); Success(Unsealed(r))
    case OpFlush(_) => var r :- result; Success(Flushed)
  }

  /** What the caller hands over fits the structures it is sent in. */
  predicate OpFits(op: Op) {
    match op
    case OpCreatePrimary(_, v, template) => SensitiveFits(v) && PublicFits(template)
    case OpCreate(_, v, template) => SensitiveFits(v) && PublicFits(template)
    case OpLoad(_, private, public) => |private| <= U16_MAX && |public| <= U16_MAX
    case OpUnseal(_) => true
    case OpFlush(_) => true
  }

  /** The command as the TPM sees it: ignored template fields are gone. */
  function Normal(op: Op): Op {
    if op.OpCreatePrimary? || op.OpCreate? then op.(template := op.template.Normalized()) else op
  }

  lemma ReadCreatedInverts(private: bytes, public: bytes)
    requires |private| <= U16_MAX && |public| <= U16_MAX
    ensures ReadCreated(BufferBytes(private) + BufferBytes(public)) == Parsed(CreateResult(private, public), [])
  {
    ReadTpm2bInverts(private, BufferBytes(public));
    ReadTpm2bInverts(public, []);
    assert BufferBytes(public) + [] == BufferBytes(public);
  }

  lemma FlushedHandleInverts(h: u32)
    ensures FlushedHandle(U32Bytes(h)) == Some(h)
  {
    ReadU32Inverts(h, []);
    assert U32Bytes(h) + [] == U32Bytes(h);
  }

  lemma CreationDecoded(code: u32, handle: u32, v: SensitiveCreate, template: Public)
    requires SensitiveFits(v) && PublicFits(template)
    requires code == CC_CREATE || code == CC_CREATE_PRIMARY
    ensures DecodeCreation(code, handle, CreateParams(v, template))
         == Some(if code == CC_CREATE then OpCreate(handle, v, template.Normalized())
                 else OpCreatePrimary(handle, v, template.Normalized()))
  {
    CreateParamsDecodeIff(v, template);
  }

  lemma LoadDecoded(handle: u32, private: bytes, public: bytes)
    requires |private| <= U16_MAX && |public| <= U16_MAX
    ensures DecodeLoad(handle, BufferBytes(private) + BufferBytes(public)) == Some(OpLoad(handle, private, public))
  {
    ReadCreatedInverts(private, public);
  }

  /** The TPM decodes the command that the host encoded. */
  lemma OpDecoded(op: Op, name: bytes)
    requires OpFits(op)
    ensures var call := CallOf(op, name);
      DecodeOp(call.code, call.handles, call.params) == Some(Normal(op))
  {
    match op
    case OpCreatePrimary(h, v, template) => CreationDecoded(CC_CREATE_PRIMARY, h, v, template);
    case OpCreate(h, v, template) => CreationDecoded(CC_CREATE, h, v, template);
    case OpLoad(h, private, public) => LoadDecoded(h, private, public);
    case OpUnseal(_) =>
    case OpFlush(item) => FlushedHandleInverts(item);
  }

  lemma NormalPerformsAlike(o: Oracle, st: Store, op: Op)
    ensures Perform(o, st, Normal(op)) == Perform(o, st, op)
  {
    if op.OpCreatePrimary? || op.OpCreate? {
      NormalizedSameBytes(op.template);
    }
  }

  lemma ReadTicketInverts(tag: u16, hierarchy: u32, digest: bytes, post: bytes)
    requires |digest| <= U16_MAX
    ensures ReadTicket(U16Bytes(tag) + (U32Bytes(hierarchy) + (BufferBytes(digest) + post))) == Parsed((), post)
  {
    ReadU16Inverts(tag, U32Bytes(hierarchy) + (BufferBytes(digest) + post));
    ReadU32Inverts(hierarchy, BufferBytes(digest) + post);
    ReadTpm2bInverts(digest, post);
  }

  /** The host finds the public area and the Name around the creation data,
      its hash and the ticket. */
  lemma ReadPrimaryInverts(x: Creation, r: CreatePrimaryResult)
    requires |r.public| <= U16_MAX && |r.name| <= U16_MAX
    ensures ReadPrimary(r.handle, BufferBytes(r.public) + (CreationBytes(x) + BufferBytes(r.name))) == Parsed(r, [])
  {
    var t4 := BufferBytes(r.name);
    var t3 := U16Bytes(x.tag) + (U32Bytes(x.hierarchy) + (BufferBytes(x.digest) + t4));
    var t2 := BufferBytes(x.hash) + t3;
    var t1 := BufferBytes(x.data) + t2;
    RegroupCreation(x, t4);
    ReadTpm2bInverts(r.public, t1);
    ReadTpm2bInverts(x.data, t2);
    ReadTpm2bInverts(x.hash, t3);
    ReadTicketInverts(x.tag, x.hierarchy, x.digest, t4);
    ReadTpm2bInverts(r.name, []);
    assert t4 + [] == t4;
  }

  lemma RegroupCreation(x: Creation, t: bytes)
    ensures CreationBytes(x) + t
         == BufferBytes(x.data) + (BufferBytes(x.hash)
            + (U16Bytes(x.tag) + (U32Bytes(x.hierarchy) + (BufferBytes(x.digest) + t))))
  {
    assert BufferBytes(x.digest) + t == BufferBytes(x.digest) + t;
  }

  /** The value that a command is to return, and not another's. */
  predicate ValueOf(op: Op, v: Value) {
    match op
    case OpCreatePrimary(_, _, _) => v.Primary? && |v.primary.public| <= 4096 && |v.primary.name| <= 4096
    case OpCreate(_, _, _) => v.Created? && |v.created.private| <= 4096 && |v.created.public| <= 4096
    case OpLoad(_, _, _) => v.Loaded? && |v.load.name| <= 4096
    case OpUnseal(_) => v.Unsealed? && |v.data| <= U16_MAX
    case OpFlush(_) => v.Flushed?
  }

  lemma PerformsValueOf(o: Oracle, st: Store, op: Op)
    ensures match Perform(o, st, op).1
      case Ok(v) => ValueOf(op, v)
      case No(rc) => !IsRetryCode(rc)
  {
  }

  /** The host decodes the value that the TPM encoded. */
  lemma ValueDecoded(x: Creation, op: Op, v: Value)
    requires ValueOf(op, v)
    ensures var answer := EncodeValue(x, v);
      && |answer.handles| == CallOf(op, []).respHandles <= 1 && |answer.params| <= 0x2_0000
      && ValueFrom(op, Success(RawResponse(answer.handles, answer.params))) == Success(v)
  {
    match v
    case Primary(r) => ReadPrimaryInverts(x, r);
    case Created(r) => ReadCreatedInverts(r.private, r.public);
    case Loaded(r) => OneBuffer(r.name);
    case Unsealed(data) => OneBuffer(data);
    case Flushed =>
  }

  lemma OneBuffer(data: bytes)
    requires |data| <= U16_MAX
    ensures ReadTpm2b(BufferBytes(data)) == Parsed(data, [])
  {
    ReadTpm2bInverts(data, []);
    assert BufferBytes(data) + [] == BufferBytes(data);
  }

  // ---------- one command ----------

  lemma ExecuteOpIsPerform(o: Oracle, st: Store, op: Op, authorized: bool)
    ensures var (after, answer) := ExecuteOp(o, st, authorized, Normal(op));
      && Modest(CallOf(op, []), answer)
      && (op.NeedsAuth() && !authorized ==> after == st && answer == Refused(RC_AUTH_MISSING))
      && (!op.NeedsAuth() || authorized ==>
            match Perform(o, st, op)
            case (st', Ok(v)) =>
              && answer.Done? && after == st'
              && ValueFrom(op, Success(RawResponse(answer.handles, answer.params))) == Success(v)
            case (_, No(rc)) => after == st && answer == Refused(rc))
  {
    NormalPerformsAlike(o, st, op);
    PerformsValueOf(o, st, op);
    var a := Perform(o, st, op).1;
    if a.Ok? {
      ValueDecoded(o.creation(st.made), op, a.value);
    }
  }

  /** The device, given the encoded command, does what the store does. */
  lemma ExecuteIsExecuteOp(o: Oracle, st: Store, op: Op, name: bytes, authorized: bool)
    requires OpFits(op)
    ensures var call := CallOf(op, name);
      Execute(o, st, authorized, call.code, call.handles, call.params) == ExecuteOp(o, st, authorized, Normal(op))
  {
    OpDecoded(op, name);
  }

  /** What the dispatcher's call means on the device is what the typed command
      means in the store. */
  lemma MeaningIsInvoke(o: Oracle, st: Store, op: Op, name: bytes, presented: Option<bytes>)
    requires OpFits(op) && (presented.Some? ==> op.NeedsAuth())
    ensures var call := CallOf(op, name);
      var (after, result) := Meaning(StoreDevice(o), st, call, presented);
      var (st', answered) := Invoke(o, st, op, presented);
      && Modest(call, Execute(o, st, presented.Some?, call.code, call.handles, call.params).1)
      && (result.Success? ==> |result.value.handles| == CallOf(op, []).respHandles)
      && after == st' && (result.Success? <==> answered.Ok?) && ValueFrom(op, result) == answered.ToResult()
  {
    var call := CallOf(op, name);
    assert op.NeedsAuth() ==> call.handles[0] == op.Handle();
    ExecuteIsExecuteOp(o, st, op, name, presented.Some?);
    ExecuteOpIsPerform(o, st, op, presented.Some?);
    MeaningOnDevice(o, StoreDevice(o), st, call, op, presented);
  }

  lemma MeaningOnDevice(o: Oracle, dev: Device<Store>, st: Store, call: Call, op: Op, presented: Option<bytes>)
    requires presented.Some? ==> op.NeedsAuth()
    requires op.NeedsAuth() ==> call.handles != [] && dev.authValue(st, call.handles[0]) == AuthOf(st, op.Handle())
    requires dev.exec(st, presented.Some?, call.code, call.handles, call.params)
          == ExecuteOp(o, st, presented.Some?, Normal(op))
    ensures var (after, result) := Meaning(dev, st, call, presented);
      var (st', answered) := Invoke(o, st, op, presented);
      && (result.Success? ==> |result.value.handles| == CallOf(op, []).respHandles)
      && after == st' && (result.Success? <==> answered.Ok?) && ValueFrom(op, result) == answered.ToResult()
  {
    ExecuteOpIsPerform(o, st, op, presented.Some?);
    if presented.Some? && presented.value != AuthOf(st, op.Handle()) {
      assert Meaning(dev, st, call, presented) == (st, Failure(Error.Code(RC_AUTH_FAIL)));
    } else {
      RefusedChangesNothing(o, st, op);
    }
  }

  /** How a command is made: by whom, and over what transport. */
  datatype Request = Request(op: Op, name: bytes, cred: Credential, events: seq<Event>)

  /** The auth value the caller presents, if any. */
  function PresentedBy(q: Request): Option<bytes> {
    Presented(q.cred)
  }

  /** The transport delivers after at most 12 warnings. */
  ghost predicate Prompt(events: seq<Event>) {
    exists codes, draw :: FewWarnings(codes) && events == Warnings(codes) + [Deliver(draw)]
  }

  /** What the typed commands allow a caller to do: flushing takes no
      authorization, everything else takes any or none. */
  ghost predicate Proposed(x: Ends<Store>, q: Request) {
    && OpFits(q.op)
    && (q.op.OpFlush? ==> q.cred.NoCredential? && q.op.item !in x.tpm.sessions)
  }

  /** The caller gives the Name of the object; the stack itself names a hierarchy,
      which has no other Name than its handle. */
  predicate Named(st: Store, op: Op, name: bytes) {
    if op.OpCreatePrimary? then NameOf(st, op.hierarchy) == HandleOctets(op.hierarchy)
    else name == NameOf(st, op.Handle())
  }

  /** Then the call carries the Name that the TPM has. */
  lemma NamedCall(st: Store, op: Op, name: bytes)
    requires op.NeedsAuth() && Named(st, op, name)
    ensures CallOf(op, name).names == [NameOf(st, op.Handle())]
  {
    PermanentNameOctets(op.Handle());
  }

  /** A session caller names the object as the TPM does, and a wrong auth value
      does not make the right HMAC. */
  ghost predicate Sensible(c: Crypto, o: Oracle, x: Ends<Store>, q: Request) {
    && Proposed(x, q)
    && match q.cred
       case NoCredential => true
       case ByPassword(pw) => |pw| <= U16_MAX
       case BySession(authValue, entropy) =>
         && Named(x.tpm.device, q.op, q.name)
         && |entropy| == SizeOf(x.session.alg)
         && Telling(c, StoreDevice(o), x.tpm, CallOf(q.op, q.name), SignedSession(x.session, entropy), authValue)
  }

  function HostOutcome(c: Crypto, o: Oracle, x: Ends<Store>, q: Request): Outcome<World<Store>> {
    RunCall(c, Link(c, StoreDevice(o)), World(x.tpm, q.events), CallOf(q.op, q.name),
            ViewOf(q.cred, x.session), EntropyOf(q.cred))
  }

  lemma HostHandles(c: Crypto, o: Oracle, x: Ends<Store>, q: Request)
    ensures var r := HostOutcome(c, o, x, q).result;
      r.Success? ==> |r.value.handles| == CallOf(q.op, []).respHandles
  {
    HandlesAsAsked(c, Link(c, StoreDevice(o)), World(x.tpm, q.events), CallOf(q.op, q.name),
                   ViewOf(q.cred, x.session), EntropyOf(q.cred));
    assert CallOf(q.op, q.name).respHandles == CallOf(q.op, []).respHandles;
  }

  /** What the typed command returns to its caller. */
  function HostResult(c: Crypto, o: Oracle, x: Ends<Store>, q: Request): Result<Value> {
    HostHandles(c, o, x, q);
    ValueFrom(q.op, HostOutcome(c, o, x, q).result)
  }

  function HostEnds(c: Crypto, o: Oracle, x: Ends<Store>, q: Request): Ends<Store> {
    var out := HostOutcome(c, o, x, q);
    Ends(SessionAfter(out.auth, x.session), out.state.tpm)
  }

  /** Each call is laid out as its command says: one handle, named by the
      caller, or none and the handle among the parameters. */
  lemma CallShape(op: Op, name: bytes)
    ensures var call := CallOf(op, name);
      && |call.params| <= 0x4_0000 && |call.handles| == HandleCount(call.code) <= 1
      && call.code != CC_START_AUTH_SESSION && (call.code == CC_FLUSH_CONTEXT <==> op.OpFlush?)
      && (op.NeedsAuth() ==> call.handles == [op.Handle()])
      && (op.OpFlush? ==> FlushedHandle(call.params) == Some(op.item))
  {
    if op.OpFlush? {
      FlushedHandleInverts(op.item);
    }
  }

  lemma SensibleIsUsable(c: Crypto, o: Oracle, x: Ends<Store>, q: Request)
    requires Sensible(c, o, x, q)
    ensures Usable(c, StoreDevice(o), x.tpm, x.session, CallOf(q.op, q.name), q.cred)
  {
    var call := CallOf(q.op, q.name);
    CallShape(q.op, q.name);
    if q.cred.BySession? {
      NamedCall(x.tpm.device, q.op, q.name);
      assert NamesOf(StoreDevice(o), x.tpm.device, call.handles) == [NameOf(x.tpm.device, q.op.Handle())];
    }
  }

  /** Each typed command returns exactly what the store returns to somebody who
      presents the same auth value or none, success or error code; the store ends
      up in the same state; and the session is still in step. */
  lemma CommandIsStoreCall(c: Crypto, o: Oracle, x: Ends<Store>, q: Request)
    requires InStep(x.session, x.tpm) && Sensible(c, o, x, q) && Prompt(q.events)
    ensures var (st, answered) := Invoke(o, x.tpm.device, q.op, PresentedBy(q));
      var x' := HostEnds(c, o, x, q);
      && HostResult(c, o, x, q) == answered.ToResult()
      && x'.tpm.device == st
      && SameSession(x.session, x.tpm, x'.session, x'.tpm)
  {
    var codes, draw :| FewWarnings(codes) && q.events == Warnings(codes) + [Deliver(draw)];
    SensibleIsUsable(c, o, x, q);
    MeaningIsInvoke(o, x.tpm.device, q.op, q.name, Presented(q.cred));
    Transparent(c, StoreDevice(o), x.tpm, x.session, CallOf(q.op, q.name), q.cred, codes, draw);
  }

  /** The same over any transport that loses and warns but does not lie: the
      caller has the store's answer or an error, and the store was called once
      or not at all. */
  lemma CommandOverHonest(c: Crypto, o: Oracle, x: Ends<Store>, q: Request)
    requires InStep(x.session, x.tpm) && Sensible(c, o, x, q) && Honest(q.events)
    ensures var (st, answered) := Invoke(o, x.tpm.device, q.op, PresentedBy(q));
      var r, device := HostResult(c, o, x, q), HostEnds(c, o, x, q).tpm.device;
      || (r == answered.ToResult() && device == st)
      || (r.Failure? && device == x.tpm.device)
      || (r == Failure(Unreachable) && device == st)
  {
    SensibleIsUsable(c, o, x, q);
    MeaningIsInvoke(o, x.tpm.device, q.op, q.name, Presented(q.cred));
    HostHandles(c, o, x, q);
    ghost var (meant, result) := Meaning(StoreDevice(o), x.tpm.device, CallOf(q.op, q.name), Presented(q.cred));
    OneOfTheseOnDevice(c, StoreDevice(o), World(x.tpm, q.events), x.session, CallOf(q.op, q.name), q.cred, meant,
                       result);
    ghost var out := HostOutcome(c, o, x, q).result;
    if out.Failure? {
      ErrorsPass(q.op, out);
    }
  }

  lemma ErrorsPass(op: Op, result: Result<RawResponse>)
    requires result.Failure?
    ensures ValueFrom(op, result) == Failure(result.error)
  {
  }

  lemma OneOfTheseOnDevice(c: Crypto, dev: Device<Store>, w: World<Store>, s: SessionState, call: Call,
                           cred: Credential, meant: Store, result: Result<RawResponse>)
    requires InStep(s, w.tpm) && Usable(c, dev, w.tpm, s, call, cred) && Honest(w.schedule)
    requires Modest(call, dev.exec(w.tpm.device, Presented(cred).Some?, call.code, call.handles, call.params).1)
    requires Meaning(dev, w.tpm.device, call, Presented(cred)) == (meant, result)
    ensures var out := RunCall(c, Link(c, dev), w, call, ViewOf(cred, s), EntropyOf(cred));
      || (out.result == result && out.state.tpm.device == meant)
      || (out.result.Failure? && out.state.tpm.device == w.tpm.device)
      || (out.result == Failure(Unreachable) && out.state.tpm.device == meant)
  {
    TransparentOrLost(c, dev, w, s, call, cred);
  }

  // ---------- runs ----------

  ghost predicate AllSensible(c: Crypto, o: Oracle, x: Ends<Store>, qs: seq<Request>)
    decreases |qs|
  {
    qs == [] ||
    (&& Sensible(c, o, x, qs[0]) && Prompt(qs[0].events)
     && AllSensible(c, o, HostEnds(c, o, x, qs[0]), qs[1..]))
  }

  function HostRun(c: Crypto, o: Oracle, x: Ends<Store>, qs: seq<Request>): (Ends<Store>, seq<Result<Value>>)
    decreases |qs|
  {
    if qs == [] then (x, [])
    else
      var (end, results) := HostRun(c, o, HostEnds(c, o, x, qs[0]), qs[1..]);
      (end, [HostResult(c, o, x, qs[0])] + results)
  }

  function StoreRun(o: Oracle, st: Store, qs: seq<Request>): (Store, seq<Result<Value>>)
    decreases |qs|
  {
    if qs == [] then (st, [])
    else
      var (next, answered) := Invoke(o, st, qs[0].op, PresentedBy(qs[0]));
      var (end, results) := StoreRun(o, next, qs[1..]);
      (end, [answered.ToResult()] + results)
  }

  /** Any sequence of typed commands, authorized by passwords, by one rolling
      session or not at all, in any mixture, gives the results of calling the store directly. */
  lemma {:induction false} RunIsStoreRun(c: Crypto, o: Oracle, x: Ends<Store>, qs: seq<Request>)
    requires InStep(x.session, x.tpm) && AllSensible(c, o, x, qs)
    ensures var (end, results) := HostRun(c, o, x, qs);
      && (end.tpm.device, results) == StoreRun(o, x.tpm.device, qs)
      && SameSession(x.session, x.tpm, end.session, end.tpm)
    decreases |qs|
  {
    if qs != [] {
      CommandIsStoreCall(c, o, x, qs[0]);
      RunIsStoreRun(c, o, HostEnds(c, o, x, qs[0]), qs[1..]);
    }
  }

  // ---------- runs of a caller who knows the auth values ----------

  /** As the store stands, the request is in order: a session caller knows the
      auth value and the Name of the object; a hierarchy is named by the stack. */
  ghost predicate Right(o: Oracle, st: Store, q: Request, alg: u16, sessions: set<u32>) {
    && OpFits(q.op) && Prompt(q.events)
    && (q.op.OpFlush? ==> q.cred.NoCredential? && q.op.item !in sessions)
    && match q.cred
       case NoCredential => true
       case ByPassword(pw) => |pw| <= U16_MAX
       case BySession(authValue, entropy) =>
         && Named(st, q.op, q.name)
         && authValue == AuthOf(st, q.op.Handle())
         && IsHash(alg) && |entropy| == SizeOf(alg)
  }

  ghost predicate RightRun(o: Oracle, st: Store, qs: seq<Request>, alg: u16, sessions: set<u32>)
    decreases |qs|
  {
    qs == [] ||
    (&& Right(o, st, qs[0], alg, sessions)
     && RightRun(o, Invoke(o, st, qs[0].op, PresentedBy(qs[0])).0, qs[1..], alg, sessions))
  }

  lemma RightIsSensible(c: Crypto, o: Oracle, x: Ends<Store>, q: Request)
    requires Right(o, x.tpm.device, q, x.session.alg, x.tpm.sessions.Keys)
    ensures Sensible(c, o, x, q)
  {
  }

  lemma SameSessionKeys<D>(s: SessionState, tpm: TpmState<D>, s': SessionState, after: TpmState<D>)
    requires InStep(s, tpm) && SameSession(s, tpm, s', after)
    ensures after.sessions.Keys == tpm.sessions.Keys
  {
    assert tpm.sessions.Keys == (tpm.sessions - {s.handle}).Keys + {s.handle};
    assert after.sessions.Keys == (after.sessions - {s.handle}).Keys + {s.handle};
  }

  /** What is right by the store is sensible on the wire, all along the run. */
  lemma {:induction false} RightRunIsSensible(c: Crypto, o: Oracle, x: Ends<Store>, qs: seq<Request>)
    requires InStep(x.session, x.tpm)
    requires RightRun(o, x.tpm.device, qs, x.session.alg, x.tpm.sessions.Keys)
    ensures AllSensible(c, o, x, qs)
    decreases |qs|
  {
    if qs != [] {
      var x' := HostEnds(c, o, x, qs[0]);
      RightIsSensible(c, o, x, qs[0]);
      CommandIsStoreCall(c, o, x, qs[0]);
      SameSessionKeys(x.session, x.tpm, x'.session, x'.tpm);
      RightRunIsSensible(c, o, x', qs[1..]);
    }
  }

  /** Conditions on the store alone, and none on hash and HMAC: whoever knows the
      auth values of what a session is used for, and presents any passwords
      whatever, gets from the whole stack the results of the store. */
  lemma RightRunIsStoreRun(c: Crypto, o: Oracle, x: Ends<Store>, qs: seq<Request>)
    requires InStep(x.session, x.tpm)
    requires RightRun(o, x.tpm.device, qs, x.session.alg, x.tpm.sessions.Keys)
    ensures var (end, results) := HostRun(c, o, x, qs);
      && (end.tpm.device, results) == StoreRun(o, x.tpm.device, qs)
      && SameSession(x.session, x.tpm, end.session, end.tpm)
  {
    RightRunIsSensible(c, o, x, qs);
    RunIsStoreRun(c, o, x, qs);
  }

  // ---------- runs over a transport that loses ----------

  /** The request can be sent, in step or not; and if it is made by a session
      with a wrong auth value, its HMAC is not the one that the TPM expects. */
  ghost predicate Sent(c: Crypto, o: Oracle, x: Ends<Store>, q: Request) {
    && Proposed(x, q) && Honest(q.events)
    && (q.cred.BySession? ==>
          && (IsHash(x.session.alg) ==> |q.cred.entropy| == SizeOf(x.session.alg))
          && var call := CallOf(q.op, q.name);
             var entry := SessionEntry(c, call, SignedSession(x.session, q.cred.entropy), q.cred.authValue);
             Passes(c, StoreDevice(o), x.tpm, call, entry) ==> q.cred.authValue == AuthOf(x.tpm.device, q.op.Handle()))
  }

  ghost predicate AllSent(c: Crypto, o: Oracle, x: Ends<Store>, qs: seq<Request>)
    decreases |qs|
  {
    qs == [] || (Sent(c, o, x, qs[0]) && AllSent(c, o, HostEnds(c, o, x, qs[0]), qs[1..]))
  }

  /** The store was called with the command by somebody who presented this auth
      value or none, and obeyed, or it was not called at all; and a caller who has
      a value has the value of that call. */
  ghost predicate DoneOnce(o: Oracle, st: Store, op: Op, presented: Option<bytes>, result: Result<Value>, done: bool,
                           after: Store)
  {
    if done then
      var (next, answered) := Invoke(o, st, op, presented);
      answered.Ok? && after == next && (result.Failure? || result == Success(answered.value))
    else after == st && result.Failure?
  }

  lemma RequestDoneOnce(c: Crypto, o: Oracle, x: Ends<Store>, q: Request) returns (done: bool)
    requires Sent(c, o, x, q)
    ensures DoneOnce(o, x.tpm.device, q.op, PresentedBy(q), HostResult(c, o, x, q), done,
                     HostEnds(c, o, x, q).tpm.device)
  {
    var call := CallOf(q.op, q.name);
    CallShape(q.op, q.name);
    MeaningIsInvoke(o, x.tpm.device, q.op, q.name, PresentedBy(q));
    HostHandles(c, o, x, q);
    done := DoneOnDevice(c, o, StoreDevice(o), World(x.tpm, q.events), x.session, call, q.cred, q.op);
  }

  lemma DoneOnDevice(c: Crypto, o: Oracle, dev: Device<Store>, w: World<Store>, s: SessionState, call: Call,
                     cred: Credential, op: Op) returns (done: bool)
    requires Sendable(c, dev, w.tpm, s, call, cred) && Honest(w.schedule)
    requires Modest(call, dev.exec(w.tpm.device, Presented(cred).Some?, call.code, call.handles, call.params).1)
    requires var (after, result) := Meaning(dev, w.tpm.device, call, Presented(cred));
      var (next, answered) := Invoke(o, w.tpm.device, op, Presented(cred));
      && (result.Success? ==> |result.value.handles| == CallOf(op, []).respHandles)
      && after == next && (result.Success? ==> answered.Ok?) && ValueFrom(op, result) == answered.ToResult()
    requires var r := RunCall(c, Link(c, dev), w, call, ViewOf(cred, s), EntropyOf(cred)).result;
      r.Success? ==> |r.value.handles| == CallOf(op, []).respHandles
    ensures var out := RunCall(c, Link(c, dev), w, call, ViewOf(cred, s), EntropyOf(cred));
      DoneOnce(o, w.tpm.device, op, Presented(cred), ValueFrom(op, out.result), done, out.state.tpm.device)
  {
    DoneOrNot(c, dev, w, s, call, cred);
    var out := RunCall(c, Link(c, dev), w, call, ViewOf(cred, s), EntropyOf(cred));
    ghost var v := ValueFrom(op, out.result);
    if out.result.Failure? {
      ErrorsPass(op, out.result);
    }
    done := !(out.result.Failure? && out.state.tpm.device == w.tpm.device);
  }

  /** The results and the final store are explained by calling the store with
      the requests that are marked done, in order, and with no others. */
  ghost predicate Explained(o: Oracle, st: Store, qs: seq<Request>, results: seq<Result<Value>>, done: seq<bool>,
                            end: Store)
    decreases |qs|
  {
    && |results| == |done| == |qs|
    && if qs == [] then end == st
       else exists next ::
         DoneOnce(o, st, qs[0].op, PresentedBy(qs[0]), results[0], done[0], next)
         && Explained(o, next, qs[1..], results[1..], done[1..], end)
  }

  /** Whatever gets lost on the way, and whether or not the session has fallen
      out of step: the store has seen the requests that were carried out, each
      once and in order, and every value returned is the value of its call. */
  lemma {:induction false} LossyRunExplained(c: Crypto, o: Oracle, x: Ends<Store>, qs: seq<Request>)
    returns (done: seq<bool>)
    requires AllSent(c, o, x, qs)
    ensures var (end, results) := HostRun(c, o, x, qs);
      Explained(o, x.tpm.device, qs, results, done, end.tpm.device)
    decreases |qs|
  {
    done := [];
    if qs != [] {
      var first := RequestDoneOnce(c, o, x, qs[0]);
      var x' := HostEnds(c, o, x, qs[0]);
      var later := LossyRunExplained(c, o, x', qs[1..]);
      done := [first] + later;
      var (end, results) := HostRun(c, o, x, qs);
      assert done[1..] == later && results[1..] == HostRun(c, o, x', qs[1..]).1;
      assert DoneOnce(o, x.tpm.device, qs[0].op, PresentedBy(qs[0]), results[0], done[0], x'.tpm.device);
    }
  }

  // ---------- sealing ----------

  ghost predicate NeverFlushes(item: u32, qs: seq<Request>) {
    forall i | 0 <= i < |qs| :: qs[i].op != OpFlush(item)
  }

  lemma {:induction false} RunKeepsBlob(o: Oracle, st: Store, qs: seq<Request>, private: bytes)
    requires private in st.blobs
    ensures var end := StoreRun(o, st, qs).0;
      private in end.blobs && end.blobs[private] == st.blobs[private]
    decreases |qs|
  {
    if qs != [] {
      PerformKeeps(o, st, qs[0].op);
      RunKeepsBlob(o, Invoke(o, st, qs[0].op, PresentedBy(qs[0])).0, qs[1..], private);
    }
  }

  lemma {:induction false} RunKeepsObject(o: Oracle, st: Store, qs: seq<Request>, item: u32)
    requires item in st.loaded && NeverFlushes(item, qs)
    ensures var end := StoreRun(o, st, qs).0;
      item in end.loaded && end.loaded[item] == st.loaded[item] && AuthOf(end, item) == AuthOf(st, item)
    decreases |qs|
  {
    if qs != [] {
      PerformKeeps(o, st, qs[0].op);
      RunKeepsObject(o, Invoke(o, st, qs[0].op, PresentedBy(qs[0])).0, qs[1..], item);
    }
  }

  /** What unsealing gives for an object created from v and template. */
  function UnsealAnswer(v: SensitiveCreate, template: Public, presented: Option<bytes>): Answered {
    if presented.None? then No(RC_AUTH_MISSING)
    else if presented.value != v.userAuth then No(RC_AUTH_FAIL)
    else if template.kind != ALG_KEYEDHASH then No(RC_TYPE)
    else Ok(Unsealed(v.data))
  }

  /** In the store: what was sealed is what is unsealed, whatever happens between
      creating and loading, and between loading and unsealing. */
  lemma SealedInStore(o: Oracle, st: Store, create: Request, between: seq<Request>, load: Request,
                      between': seq<Request>, unseal: Request)
    requires create.op.OpCreate?
    requires var (st1, a1) := Invoke(o, st, create.op, PresentedBy(create));
      var st2 := StoreRun(o, st1, between).0;
      var (st3, a3) := Invoke(o, st2, load.op, PresentedBy(load));
      && a1.Ok? && a1.value.Created?
      && load.op.OpLoad? && load.op.private == a1.value.created.private && load.op.public == a1.value.created.public
      && a3.Ok? && a3.value.Loaded?
      && NeverFlushes(a3.value.load.handle, between')
      && unseal.op == OpUnseal(a3.value.load.handle)
    ensures var st1 := Invoke(o, st, create.op, PresentedBy(create)).0;
      var st2 := StoreRun(o, st1, between).0;
      var st3 := Invoke(o, st2, load.op, PresentedBy(load)).0;
      var st4 := StoreRun(o, st3, between').0;
      Invoke(o, st4, unseal.op, PresentedBy(unseal)).1
      == UnsealAnswer(create.op.sensitive, create.op.template, PresentedBy(unseal))
  {
    var st1 := Invoke(o, st, create.op, PresentedBy(create)).0;
    var st2 := StoreRun(o, st1, between).0;
    var st3 := Invoke(o, st2, load.op, PresentedBy(load)).0;
    RunKeepsBlob(o, st1, between, load.op.private);
    var entity := st1.blobs[load.op.private].entity;
    assert unseal.op.item in st3.loaded && st3.loaded[unseal.op.item] == entity;
    assert unseal.op.item !in st3.hierarchies;
    RunKeepsObject(o, st3, between', unseal.op.item);
  }

  /** Five stretches of one run at the host: create, anything, load, anything
      that does not flush the object, unseal. */
  datatype Sealing = Sealing(
    create: Request, between: seq<Request>, load: Request, between': seq<Request>, unseal: Request)

  function AfterCreate(c: Crypto, o: Oracle, x: Ends<Store>, q: Sealing): Ends<Store> {
    HostRun(c, o, HostEnds(c, o, x, q.create), q.between).0
  }

  function AfterLoad(c: Crypto, o: Oracle, x: Ends<Store>, q: Sealing): Ends<Store> {
    HostRun(c, o, HostEnds(c, o, AfterCreate(c, o, x, q), q.load), q.between').0
  }

  ghost predicate SensibleSealing(c: Crypto, o: Oracle, x: Ends<Store>, q: Sealing) {
    var x2, x4 := AfterCreate(c, o, x, q), AfterLoad(c, o, x, q);
    && Sensible(c, o, x, q.create) && Prompt(q.create.events)
    && AllSensible(c, o, HostEnds(c, o, x, q.create), q.between)
    && Sensible(c, o, x2, q.load) && Prompt(q.load.events) && AllSensible(c, o, HostEnds(c, o, x2, q.load), q.between')
    && Sensible(c, o, x4, q.unseal) && Prompt(q.unseal.events)
  }

  /** The load is of what the creation returned, the unsealing of what the load
      returned, and nobody flushed that in between. */
  ghost predicate Follows(q: Sealing, created: Result<Value>, loaded: Result<Value>) {
    && q.create.op.OpCreate? && created.Success? && created.value.Created?
    && q.load.op.OpLoad? && q.load.op.private == created.value.created.private
    && q.load.op.public == created.value.created.public
    && loaded.Success? && loaded.value.Loaded?
    && q.unseal.op == OpUnseal(loaded.value.load.handle)
    && NeverFlushes(loaded.value.load.handle, q.between')
  }

  /** At the host, over the wire: unsealing returns exactly the sealed bytes to
      whoever presents the auth value they were sealed under, by password or by
      session, and refuses everybody else. */
  lemma UnsealReturnsSealed(c: Crypto, o: Oracle, x: Ends<Store>, q: Sealing)
    requires InStep(x.session, x.tpm) && SensibleSealing(c, o, x, q)
    requires Follows(q, HostResult(c, o, x, q.create), HostResult(c, o, AfterCreate(c, o, x, q), q.load))
    ensures HostResult(c, o, AfterLoad(c, o, x, q), q.unseal)
         == UnsealAnswer(q.create.op.sensitive, q.create.op.template, PresentedBy(q.unseal)).ToResult()
  {
    var x1, x2 := HostEnds(c, o, x, q.create), AfterCreate(c, o, x, q);
    CommandIsStoreCall(c, o, x, q.create);
    RunIsStoreRun(c, o, x1, q.between);
    CommandIsStoreCall(c, o, x2, q.load);
    RunIsStoreRun(c, o, HostEnds(c, o, x2, q.load), q.between');
    CommandIsStoreCall(c, o, AfterLoad(c, o, x, q), q.unseal);
    SealedInStore(o, x.tpm.device, q.create, q.between, q.load, q.between', q.unseal);
  }
}
