/**
 The typed commands over a transport that may do anything: what a session caller
 gets in a reply that it believes, the object store returned for this command.
 */
module Integrity {
  import opened Basics
  import opened CryptoCore
  import opened Sessions
  import opened Dispatcher
  import opened ReferenceTpm
  import opened Exchanges
  import opened LockStep
  import opened TpmInvariants
  import opened AnyTransport
  import opened Agreement
  import opened ObjectCommands
  import opened ObjectStore
  import opened EndToEnd

  /** The same command on another handle. */
  function OnHandle(op: Op, h: u32): Op {
    match op
    case OpCreatePrimary(_, v, template) => OpCreatePrimary(h, v, template)
    case OpCreate(_, v, template) => OpCreate(h, v, template)
    case OpLoad(_, private, public) => OpLoad(h, private, public)
    case OpUnseal(_) => OpUnseal(h)
    case OpFlush(_) => OpFlush(h)
  }

  /** The same value, but for the handle of a new object, which no HMAC covers. */
  predicate SameButHandle(v: Value, v': Value) {
    match v
    case Primary(r) => v'.Primary? && v'.primary == r.(handle := v'.primary.handle)
    case Loaded(r) => v'.Loaded? && v'.load == r.(handle := v'.load.handle)
    case _ => v' == v
  }

  lemma CallOnHandle(op: Op, h: u32, name: bytes)
    requires op.NeedsAuth()
    ensures var call, call' := CallOf(op, name), CallOf(OnHandle(op, h), name);
      && call'.code == call.code && call'.params == call.params && call'.handles == [h]
      && call'.respHandles == call.respHandles == CallOf(op, []).respHandles && |call.names| == 1
    ensures OpFits(op) ==> OpFits(OnHandle(op, h))
  {
  }

  lemma PrimaryOnHandle(handles: seq<u32>, handles': seq<u32>, params: bytes)
    requires |handles| == |handles'| == 1 && PrimaryFrom(Success(RawResponse(handles, params))).Success?
    ensures var r, r' := PrimaryFrom(Success(RawResponse(handles, params))),
                         PrimaryFrom(Success(RawResponse(handles', params)));
      r'.Success? && r'.value == r.value.(handle := handles'[0])
  {
  }

  lemma ValueOnHandle(op: Op, h: u32, handles: seq<u32>, handles': seq<u32>, params: bytes)
    requires |handles| == |handles'| == CallOf(op, []).respHandles == CallOf(OnHandle(op, h), []).respHandles
    requires ValueFrom(OnHandle(op, h), Success(RawResponse(handles, params))).Success?
    ensures var r := ValueFrom(op, Success(RawResponse(handles', params)));
      && r.Success?
      && SameButHandle(ValueFrom(OnHandle(op, h), Success(RawResponse(handles, params))).value, r.value)
  {
    if op.OpCreatePrimary? {
      PrimaryOnHandle(handles, handles', params);
    }
  }

  /** The store obeyed the command, on some object of the Name given, and the
      host has the value that it returned. */
  ghost predicate Obeyed(o: Oracle, before: Store, op: Op, names: seq<bytes>, result: Result<Value>, after: Store) {
    exists h ::
      && [NameOf(before, h)] == names
      && var (st, a) := Perform(o, before, OnHandle(op, h));
         a.Ok? && st == after && result.Success? && SameButHandle(a.value, result.value)
  }

  lemma ExecutedOnStore(o: Oracle, before: Store, op: Op, name: bytes, h: u32, handles: seq<u32>, params: bytes)
    requires OpFits(op) && op.NeedsAuth() && |handles| == CallOf(op, []).respHandles
    requires var call := CallOf(op, name); Returns(Execute(o, before, true, call.code, [h], call.params).1, params)
    ensures var (st, a), call := Perform(o, before, OnHandle(op, h)), CallOf(op, name);
      var result := ValueFrom(op, Success(RawResponse(handles, params)));
      && a.Ok? && st == Execute(o, before, true, call.code, [h], call.params).0
      && result.Success? && SameButHandle(a.value, result.value)
  {
    var op' := OnHandle(op, h);
    CallOnHandle(op, h, name);
    CallOnHandle(op, h, []);
    ExecuteIsExecuteOp(o, before, op', name, true);
    ExecuteOpIsPerform(o, before, op', true);
    var answer := ExecuteOp(o, before, true, Normal(op')).1;
    ValueOnHandle(op, h, answer.handles, handles, params);
  }

  lemma ExecutedIsObeyed(o: Oracle, before: Store, op: Op, name: bytes, r: RawResponse, after: Store)
    requires OpFits(op) && op.NeedsAuth() && |r.handles| == CallOf(op, []).respHandles
    requires Executes(StoreDevice(o), before, CallOf(op, name), r.params, after)
    ensures Obeyed(o, before, op, CallOf(op, name).names, ValueFrom(op, Success(r)), after)
  {
    var dev, call := StoreDevice(o), CallOf(op, name);
    var handles :| NamesOf(dev, before, handles) == call.names
      && dev.exec(before, true, call.code, handles, call.params).0 == after
      && Returns(dev.exec(before, true, call.code, handles, call.params).1, r.params);
    CallOnHandle(op, 0, name);
    var h := handles[0];
    assert handles == [h] && NamesOf(dev, before, handles) == [NameOf(before, h)];
    ExecutedOnStore(o, before, op, name, h, r.handles, r.params);
  }

  /** Some frame served in between, the k-th, made the store obey the command. */
  ghost predicate ObeyedAt(c: Crypto, o: Oracle, tpm: TpmState<Store>, frames: seq<Arrival>, op: Op, names: seq<bytes>,
                           result: Result<Value>, k: nat)
    requires k < |frames|
  {
    Obeyed(o, ServeAll(c, StoreDevice(o), tpm, frames[..k]).device, op, names, result,
           ServeAll(c, StoreDevice(o), tpm, frames[..k + 1]).device)
  }

  lemma ExecutedOnceIsObeyed(c: Crypto, o: Oracle, dev: Device<Store>, tpm: TpmState<Store>, frames: seq<Arrival>,
                             op: Op, name: bytes, s: SessionState, authValue: bytes, r: RawResponse, calm: bool, k: nat)
    requires dev == StoreDevice(o) && OpFits(op) && op.NeedsAuth() && |r.handles| == CallOf(op, []).respHandles
    requires ExecutedOnce(c, dev, tpm, frames, CallOf(op, name), s, authValue, r.params, calm, k)
    ensures k < |frames| && ObeyedAt(c, o, tpm, frames, op, CallOf(op, name).names, ValueFrom(op, Success(r)), k)
  {
    ExecutedIsObeyed(o, ServeAll(c, dev, tpm, frames[..k]).device, op, name, r,
                     ServeAll(c, dev, tpm, frames[..k + 1]).device);
  }

  /** A tagged reply is believed, and the hypotheses about forgery and collisions
      hold of the values of this call. */
  ghost predicate Believed(c: Crypto, dev: Device<Store>, w: World<Store>, call: Call, s: SessionState,
                           authValue: bytes, entropy: bytes, signed: seq<Signed>, used: set<bytes>)
  {
    var o := RunCall(c, Link(c, dev), w, call, SessionView(s, authValue), entropy);
    && o.result.Success? && o.last.Success? && Tagged(call, o.last.value)
    && Trustworthy(c, dev, call, ReadReply(call.respHandles, o.last.value).value, SignedSession(s, entropy), authValue,
                   o.state.tpm.log,
                   FirstConcerned(NeverFlushed(dev, w.schedule, s.handle), w.tpm.log, o.state.tpm.log), signed, used)
  }

  /** Over any transport whatsoever, a session caller who believes a tagged reply
      has the value that the store returned for this very command: among the
      frames served during the call one, and with a session nobody flushes one
      only, made the store obey it, on an object of the Name given.  Only the
      handle of a new object may be another one. */
  lemma AuthenticCommand(c: Crypto, o: Oracle, dev: Device<Store>, w: World<Store>, op: Op, name: bytes,
                         s: SessionState, authValue: bytes, entropy: bytes, signed: seq<Signed>, used: set<bytes>)
    returns (k: nat)
    requires InStep(s, w.tpm) && Sound(c, dev, w.tpm, used) && FreshSchedule(w.schedule, used)
    requires dev == StoreDevice(o) && OpFits(op) && op.NeedsAuth()
    requires Believed(c, dev, w, CallOf(op, name), s, authValue, entropy, signed, used)
    ensures var out := RunCall(c, Link(c, dev), w, CallOf(op, name), SessionView(s, authValue), entropy);
      var s' := SignedSession(s, entropy);
      var frames := Handed(w.schedule, |out.state.schedule|, SignedFrame(c, CallOf(op, name), s', authValue));
      && out.state.tpm == ServeAll(c, dev, w.tpm, frames) && k < |frames|
      && |out.result.value.handles| == CallOf(op, []).respHandles
      && ObeyedAt(c, o, w.tpm, frames, op, CallOf(op, name).names, ValueFrom(op, out.result), k)
      && ExecutedOnce(c, dev, w.tpm, frames, CallOf(op, name), s', authValue, out.result.value.params,
                      NeverFlushed(dev, w.schedule, s.handle), k)
  {
    var call, s' := CallOf(op, name), SignedSession(s, entropy);
    var out := RunCall(c, Link(c, dev), w, call, SessionView(s, authValue), entropy);
    var frames := Handed(w.schedule, |out.state.schedule|, SignedFrame(c, call, s', authValue));
    var j, i := AuthenticCall(c, dev, w, call, s, authValue, entropy, used, signed);
    HandlesAsAsked(c, Link(c, dev), w, call, SessionView(s, authValue), entropy);
    CallOnHandle(op, 0, name);
    ExecutedOnceIsObeyed(c, o, dev, w.tpm, frames, op, name, s', authValue, out.result.value,
                         NeverFlushed(dev, w.schedule, s.handle), i);
    k := i;
  }
}
