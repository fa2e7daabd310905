/**
 Safety against a transport that may do anything: hand the TPM any frames, keep
 frames back, answer with any bytes.  A reply that the host believes under a
 session is the TPM's reply to exactly the command the host signed, and the two
 ends stay in step unless a command was carried out behind the host's back.

 The cryptographic hypotheses speak only of the values that occur in the run.
 */
module Agreement {
  import opened Basics
  import opened Constants
  import opened CryptoCore
  import opened Sessions
  import opened Dispatcher
  import opened Frames
  import opened ReferenceTpm
  import opened Exchanges
  import opened LockStep
  import opened TpmInvariants
  import opened AnyTransport

  // ---------- what nobody can forge ----------

  /** A command the host signed at some time. */
  datatype Signed = Signed(
    code: u32, names: seq<bytes>, params: bytes, nonceCaller: bytes, nonceTpm: bytes, attributes: byte)

  /** The command that is being signed now. */
  function Current(call: Call, s: SessionState): Signed {
    Signed(call.code, call.names, call.params, s.nonceCaller, s.nonceTpm, s.attributes)
  }

  function SignedMessage(c: Crypto, alg: u16, x: Signed): bytes {
    AuthMessage(c.hash(alg, CpInput(x.code, x.names, x.params)), x.nonceCaller, x.nonceTpm, x.attributes)
  }

  /** The message whose HMAC the host checks a reply against. */
  function CheckedMessage(c: Crypto, call: Call, reply: Reply, s: SessionState): bytes
    requires reply.auth.Some?
  {
    AuthMessage(c.hash(s.alg, RpInput(0, call.code, reply.params)), reply.auth.value.nonceTpm, s.nonceCaller,
                reply.auth.value.attributes)
  }

  function HostKey(call: Call, s: SessionState, authValue: bytes): bytes {
    AuthKey(s.key, s.boundName, authValue, call.ObjectName())
  }

  /** Record e was made under this hash and this HMAC key. */
  predicate UnderKey(e: Entry, alg: u16, key: bytes) {
    e.alg == alg && e.key == key
  }

  /** Record i is under the host's key, or of the host's session in this call,
      which began when the log had n records. */
  predicate Concerned(s: SessionState, key: bytes, log: seq<Entry>, n: nat, i: nat)
    requires i < |log|
  {
    log[i].alg == s.alg && (log[i].key == key || (n <= i && log[i].session == s.handle))
  }

  /** Nobody but the two holders of the key makes a reply HMAC that verifies:
      then the message is one the TPM signed in a reply or the host in a command. */
  ghost predicate Unforged(c: Crypto, call: Call, reply: Reply, s: SessionState, authValue: bytes,
                           log: seq<Entry>, signed: seq<Signed>)
  {
    Genuine(c, call, reply, s, authValue) ==>
    var m := CheckedMessage(c, call, reply, s);
    || (exists j :: 0 <= j < |log| && UnderKey(log[j], s.alg, HostKey(call, s, authValue))
          && ReplyMessage(c, log[j]) == m)
    || (exists k :: 0 <= k < |signed| && SignedMessage(c, s.alg, signed[k]) == m)
  }

  /** Nobody but the host makes a command HMAC that verifies: every record
      concerned is of a message the host signed. */
  ghost predicate Vouched(c: Crypto, s: SessionState, key: bytes, log: seq<Entry>, n: nat, signed: seq<Signed>) {
    forall i | 0 <= i < |log| && Concerned(s, key, log, n, i) ::
      exists k :: 0 <= k < |signed| && SignedMessage(c, s.alg, signed[k]) == CommandMessage(c, log[i])
  }

  /** The hash does not collide on the inputs of this run. */
  ghost predicate NoHashCollision(c: Crypto, call: Call, reply: Reply, s: SessionState, key: bytes,
                                  log: seq<Entry>, n: nat, signed: seq<Signed>)
  {
    var input := RpInput(0, call.code, reply.params);
    && (forall j | 0 <= j < |log| && UnderKey(log[j], s.alg, key) ::
          c.hash(s.alg, RpInput(0, log[j].code, log[j].params)) == c.hash(s.alg, input)
          ==> RpInput(0, log[j].code, log[j].params) == input)
    && (forall k | 0 <= k < |signed| ::
          c.hash(s.alg, CpInput(signed[k].code, signed[k].names, signed[k].params)) == c.hash(s.alg, input)
          ==> CpInput(signed[k].code, signed[k].names, signed[k].params) == input)
    && (forall i, k | 0 <= i < |log| && Concerned(s, key, log, n, i) && 0 <= k < |signed| ::
          c.hash(s.alg, log[i].CpBytes()) == c.hash(s.alg, CpInput(signed[k].code, signed[k].names, signed[k].params))
          ==> log[i].CpBytes() == CpInput(signed[k].code, signed[k].names, signed[k].params))
  }

  /** What both ends see to: the host's nonces have one length and do not repeat,
      its command codes are not zero and its sessions go on; it names each handle
      of a command, and Names are Names.  used are the nonces the TPM has drawn
      before this call. */
  ghost predicate Orderly(handleCount: u32 -> nat, call: Call, s: SessionState, key: bytes, log: seq<Entry>, n: nat,
                          signed: seq<Signed>, used: set<bytes>)
  {
    && (forall k | 0 <= k < |signed| ::
          && signed[k].code != 0 && signed[k].nonceTpm in used && Continues(signed[k].attributes)
          && |signed[k].nonceCaller| == |s.nonceCaller|
          && (signed[k].nonceCaller == s.nonceCaller ==> signed[k] == Current(call, s))
          && |signed[k].names| == handleCount(signed[k].code) && AreNames(signed[k].names))
    && (forall i | 0 <= i < |log| && Concerned(s, key, log, n, i) ::
          |log[i].signed.nonceCaller| == |s.nonceCaller| && AreNames(log[i].names))
  }

  /** The hypotheses about the values of this run: no forgery in either
      direction, no hash collision, and a host that draws nonces as it should. */
  ghost predicate Trustworthy<D>(c: Crypto, dev: Device<D>, call: Call, reply: Reply, s: SessionState, authValue: bytes,
                                 log: seq<Entry>, n: nat, signed: seq<Signed>, used: set<bytes>)
  {
    var key := HostKey(call, s, authValue);
    && Unforged(c, call, reply, s, authValue, log, signed)
    && Vouched(c, s, key, log, n, signed)
    && NoHashCollision(c, call, reply, s, key, log, n, signed)
    && Orderly(dev.handleCount, call, s, key, log, n, signed, used)
  }

  // ---------- what a believed reply is ----------

  /** Record e is of the TPM answering this nonceCaller and this command code
      with these parameters and this new nonceTPM. */
  ghost predicate Answers(e: Entry, call: Call, reply: Reply, s: SessionState)
    requires reply.auth.Some?
  {
    && e.code == call.code && e.params == reply.params
    && e.signed.nonceCaller == s.nonceCaller
    && e.nonceAfter == reply.auth.value.nonceTpm
    && e.signed.attributes == reply.auth.value.attributes
  }

  /** A genuine reply is the TPM's answer to this nonceCaller, command code and
      parameters, whatever the transport did. */
  lemma ReplyAgreement<D>(c: Crypto, dev: Device<D>, call: Call, reply: Reply, s: SessionState, authValue: bytes,
                       log: seq<Entry>, n: nat, signed: seq<Signed>, used: set<bytes>) returns (j: nat)
    requires Genuine(c, call, reply, s, authValue)
    requires Trustworthy(c, dev, call, reply, s, authValue, log, n, signed, used)
    ensures j < |log| && UnderKey(log[j], s.alg, HostKey(call, s, authValue)) && Answers(log[j], call, reply, s)
  {
    var m := CheckedMessage(c, call, reply, s);
    forall k | 0 <= k < |signed| ensures SignedMessage(c, s.alg, signed[k]) != m {
      var x := signed[k];
      CommandsAreNotReplies(c, s.alg, x.code, x.names, x.params, x.nonceCaller, x.nonceTpm, x.attributes,
                            call.code, reply.params, reply.auth.value.nonceTpm, s.nonceCaller,
                            reply.auth.value.attributes);
    }
    j :| 0 <= j < |log| && UnderKey(log[j], s.alg, HostKey(call, s, authValue)) && ReplyMessage(c, log[j]) == m;
    SameReply(c, call, reply, s, log[j]);
  }

  lemma SameReply(c: Crypto, call: Call, reply: Reply, s: SessionState, e: Entry)
    requires reply.auth.Some? && e.alg == s.alg && ReplyMessage(c, e) == CheckedMessage(c, call, reply, s)
    requires |e.signed.nonceCaller| == |s.nonceCaller|
    requires c.hash(s.alg, RpInput(0, e.code, e.params)) == c.hash(s.alg, RpInput(0, call.code, reply.params))
         ==> RpInput(0, e.code, e.params) == RpInput(0, call.code, reply.params)
    ensures Answers(e, call, reply, s)
  {
    var a := reply.auth.value;
    MessageDetermines(c.hash(s.alg, RpInput(0, e.code, e.params)), e.nonceAfter, e.signed.nonceCaller,
                      e.signed.attributes,
                      c.hash(s.alg, RpInput(0, call.code, reply.params)), a.nonceTpm, s.nonceCaller, a.attributes);
    RpInputDetermines(e.code, e.params, call.code, reply.params);
  }

  /** A record concerned is of a command the host signed: the same code, the same
      Names, one by one, the same parameters, nonces and attributes. */
  lemma HostSigned<D>(c: Crypto, dev: Device<D>, call: Call, reply: Reply, s: SessionState, authValue: bytes,
                   log: seq<Entry>, n: nat, signed: seq<Signed>, used: set<bytes>, i: nat) returns (k: nat)
    requires Trustworthy(c, dev, call, reply, s, authValue, log, n, signed, used)
    requires AllRecorded(c, dev, log)
    requires i < |log| && Concerned(s, HostKey(call, s, authValue), log, n, i)
    ensures k < |signed|
    ensures log[i].code == signed[k].code && log[i].names == signed[k].names && log[i].request == signed[k].params
    ensures log[i].signed.nonceCaller == signed[k].nonceCaller && log[i].nonceBefore == signed[k].nonceTpm
    ensures log[i].signed.attributes == signed[k].attributes
  {
    k :| 0 <= k < |signed| && SignedMessage(c, s.alg, signed[k]) == CommandMessage(c, log[i]);
    var e, x := log[i], signed[k];
    MessageDetermines(c.hash(s.alg, e.CpBytes()), e.signed.nonceCaller, e.nonceBefore, e.signed.attributes,
                      c.hash(s.alg, CpInput(x.code, x.names, x.params)), x.nonceCaller, x.nonceTpm, x.attributes);
    assert Recorded(c, dev, e);
    CommandCanonical(dev.handleCount, e.frame);
    CpInputDeterminesAll(e.code, e.names, e.request, x.code, x.names, x.params);
  }

  /** In this call, which began when the log had n records, the TPM carried out
      the host's command for the host's session, in record j: its code, Names,
      parameters, nonceCaller and attributes, answered with these parameters.
      No other record under the host's key, of any time, is of this nonceCaller. */
  ghost predicate CarriedOutOnce(c: Crypto, call: Call, s: SessionState, authValue: bytes, params: bytes,
                                 log: seq<Entry>, n: nat, j: nat)
  {
    n <= j < |log| &&
    var e := log[j];
    && e.session == s.handle && e.code == call.code && e.names == call.names && e.request == call.params
    && e.signed.nonceCaller == s.nonceCaller && e.signed.attributes == s.attributes
    && e.params == params
    && (forall i | 0 <= i < |log| && i != j && UnderKey(log[i], s.alg, HostKey(call, s, authValue)) ::
          log[i].signed.nonceCaller != s.nonceCaller)
  }

  /** Record j is the only one of the session from the n-th record on. */
  ghost predicate OnlyRecord(log: seq<Entry>, n: nat, session: u32, j: nat) {
    forall i | n <= i < |log| && i != j :: log[i].session != session
  }

  /** The record of a command signed now is of the host's session and new. */
  lemma CurrentIsNew<D>(c: Crypto, dev: Device<D>, tpm: TpmState<D>, after: TpmState<D>, s: SessionState,
                        used: set<bytes>, drawn: set<bytes>, calm: bool, i: nat)
    requires InStep(s, tpm) && Sound(c, dev, tpm, used)
    requires Since(c, dev, tpm, after, s.handle, used, drawn, calm)
    requires i < |after.log| && after.log[i].nonceBefore == s.nonceTpm
    ensures |tpm.log| <= i && after.log[i].session == s.handle
  {
    if i < |tpm.log| {
      assert false;
    }
  }

  /** A genuine reply means that the host's command was carried out, once. */
  lemma OneRecord<D>(
    c: Crypto, dev: Device<D>, tpm: TpmState<D>, after: TpmState<D>, call: Call, reply: Reply, s: SessionState,
    authValue: bytes, n: nat, signed: seq<Signed>, used: set<bytes>, drawn: set<bytes>, calm: bool, j: nat)
    requires InStep(s, tpm) && Sound(c, dev, tpm, used)
    requires Since(c, dev, tpm, after, s.handle, used, drawn, calm) && reply.auth.Some?
    requires Trustworthy(c, dev, call, reply, s, authValue, after.log, n, signed, used)
    requires j < |after.log| && UnderKey(after.log[j], s.alg, HostKey(call, s, authValue))
    requires Answers(after.log[j], call, reply, s)
    ensures CarriedOutOnce(c, call, s, authValue, reply.params, after.log, |tpm.log|, j)
    ensures after.log[j].nonceBefore == s.nonceTpm
  {
    var log, key := after.log, HostKey(call, s, authValue);
    var k := HostSigned(c, dev, call, reply, s, authValue, log, n, signed, used, j);
    CurrentIsNew(c, dev, tpm, after, s, used, drawn, calm, j);
    forall i | 0 <= i < |log| && i != j ensures log[i].nonceBefore != s.nonceTpm {
      NoncesOnce(after, used + drawn, i, j);
    }
    forall i | 0 <= i < |log| && i != j && UnderKey(log[i], s.alg, key)
      ensures log[i].signed.nonceCaller != s.nonceCaller
    {
      var l := HostSigned(c, dev, call, reply, s, authValue, log, n, signed, used, i);
    }
  }

  /** Any record of the host's session in this call is of the command signed
      now, and it does not end the session. */
  lemma SessionRecordIsCurrent<D>(
    c: Crypto, dev: Device<D>, tpm: TpmState<D>, after: TpmState<D>, call: Call, reply: Reply, s: SessionState,
    authValue: bytes, signed: seq<Signed>, used: set<bytes>, drawn: set<bytes>, i: nat)
    requires InStep(s, tpm) && Sound(c, dev, tpm, used)
    requires Since(c, dev, tpm, after, s.handle, used, drawn, true)
    requires Trustworthy(c, dev, call, reply, s, authValue, after.log, |tpm.log|, signed, used)
    requires |tpm.log| <= i < |after.log| && after.log[i].session == s.handle && after.log[i].alg == s.alg
    ensures after.log[i].nonceBefore == s.nonceTpm && Continues(after.log[i].signed.attributes)
  {
    var k := HostSigned(c, dev, call, reply, s, authValue, after.log, |tpm.log|, signed, used, i);
    assert after.log[i].nonceBefore in used;
  }

  lemma StillChained<D>(
    c: Crypto, dev: Device<D>, tpm: TpmState<D>, after: TpmState<D>, call: Call, reply: Reply, s: SessionState,
    authValue: bytes, signed: seq<Signed>, used: set<bytes>, drawn: set<bytes>)
    requires InStep(s, tpm) && Sound(c, dev, tpm, used)
    requires Since(c, dev, tpm, after, s.handle, used, drawn, true)
    requires Trustworthy(c, dev, call, reply, s, authValue, after.log, |tpm.log|, signed, used)
    ensures Intact(tpm, after, s.handle)
    ensures forall i | |tpm.log| <= i < |after.log| && after.log[i].session == s.handle ::
      after.log[i].nonceBefore == s.nonceTpm
  {
    forall i | |tpm.log| <= i < |after.log| && after.log[i].session == s.handle && after.log[i].alg == s.alg
      ensures after.log[i].nonceBefore == s.nonceTpm && Continues(after.log[i].signed.attributes)
    {
      SessionRecordIsCurrent(c, dev, tpm, after, call, reply, s, authValue, signed, used, drawn, i);
    }
  }

  /** If nobody flushed the session, that record is its only one, and the TPM's
      session holds the nonce of it. */
  lemma OneSessionRecord<D>(
    c: Crypto, dev: Device<D>, tpm: TpmState<D>, after: TpmState<D>, call: Call, reply: Reply, s: SessionState,
    authValue: bytes, signed: seq<Signed>, used: set<bytes>, drawn: set<bytes>, j: nat)
    requires InStep(s, tpm) && Sound(c, dev, tpm, used)
    requires Since(c, dev, tpm, after, s.handle, used, drawn, true)
    requires Trustworthy(c, dev, call, reply, s, authValue, after.log, |tpm.log|, signed, used)
    requires |tpm.log| <= j < |after.log| && after.log[j].session == s.handle
    ensures OnlyRecord(after.log, |tpm.log|, s.handle, j)
    ensures s.handle in after.sessions
    ensures after.sessions[s.handle] == tpm.sessions[s.handle].(nonceTpm := after.log[j].nonceAfter)
  {
    StillChained(c, dev, tpm, after, call, reply, s, authValue, signed, used, drawn);
    forall i | |tpm.log| <= i < |after.log| && i != j ensures after.log[i].session != s.handle {
      NoncesOnce(after, used + drawn, i, j);
    }
    LatestIsLast(after.log, |tpm.log|, s.handle, s.nonceTpm, j);
  }

  /** A believed reply with the sessions tag means that the TPM carried the
      host's command out, once; and if nobody flushed the session, that it
      carried out no other command of it and both ends hold the same nonce. */
  lemma BelievedMeansCarriedOut<D>(
    c: Crypto, dev: Device<D>, tpm: TpmState<D>, after: TpmState<D>, call: Call, s: SessionState, authValue: bytes,
    resp: bytes, signed: seq<Signed>, used: set<bytes>, drawn: set<bytes>, calm: bool) returns (j: nat)
    requires InStep(s, tpm) && Sound(c, dev, tpm, used)
    requires Since(c, dev, tpm, after, s.handle, used, drawn, calm)
    requires ParseResponse(c, call, resp, SessionView(s, authValue)).0.Success? && Tagged(call, resp)
    requires Trustworthy(c, dev, call, ReadReply(call.respHandles, resp).value, s, authValue, after.log,
                         FirstConcerned(calm, tpm.log, after.log), signed, used)
    ensures var (r, auth) := ParseResponse(c, call, resp, SessionView(s, authValue));
      && CarriedOutOnce(c, call, s, authValue, r.value.params, after.log, |tpm.log|, j)
      && (calm ==> OnlyRecord(after.log, |tpm.log|, s.handle, j))
      && (calm ==> auth.SessionView? && InStep(auth.session, after))
  {
    BelievedExactly(c, call, resp, s, authValue);
    var reply, n := ReadReply(call.respHandles, resp).value, FirstConcerned(calm, tpm.log, after.log);
    j := ReplyAgreement(c, dev, call, reply, s, authValue, after.log, n, signed, used);
    OneRecord(c, dev, tpm, after, call, reply, s, authValue, n, signed, used, drawn, calm, j);
    if calm {
      OneSessionRecord(c, dev, tpm, after, call, reply, s, authValue, signed, used, drawn, j);
    }
  }

  /** From which record on the session's records are the host's concern: from
      the beginning of the call, or not at all once somebody else may have
      flushed the session and started another with its handle. */
  function FirstConcerned(calm: bool, before: seq<Entry>, after: seq<Entry>): nat {
    if calm then |before| else |after|
  }

  /** The reply carries the sessions tag. */
  predicate Tagged(call: Call, resp: bytes) {
    ReadReply(call.respHandles, resp).Parsed? && ReadReply(call.respHandles, resp).value.tag == ST_SESSIONS
  }

  lemma NoncesOnce<D>(tpm: TpmState<D>, used: set<bytes>, i: nat, j: nat)
    requires NoncesDistinct(tpm, used) && i < |tpm.log| && j < |tpm.log| && i != j
    ensures tpm.log[i].nonceBefore != tpm.log[j].nonceBefore
  {
  }

  // ---------- a call over any transport ----------

  /** For AuthenticCall: which record is of the command. */
  lemma AuthenticRecord<D(!new)>(
    c: Crypto, dev: Device<D>, w: World<D>, call: Call, s: SessionState, authValue: bytes, entropy: bytes,
    used: set<bytes>, signed: seq<Signed>) returns (j: nat)
    requires InStep(s, w.tpm) && Sound(c, dev, w.tpm, used) && FreshSchedule(w.schedule, used)
    requires var o := RunCall(c, Link(c, dev), w, call, SessionView(s, authValue), entropy);
      && o.result.Success? && o.last.Success? && Tagged(call, o.last.value)
      && Trustworthy(c, dev, call, ReadReply(call.respHandles, o.last.value).value, SignedSession(s, entropy),
                     authValue, o.state.tpm.log,
                     FirstConcerned(NeverFlushed(dev, w.schedule, s.handle), w.tpm.log, o.state.tpm.log), signed, used)
    ensures var o := RunCall(c, Link(c, dev), w, call, SessionView(s, authValue), entropy);
      && CarriedOutOnce(c, call, SignedSession(s, entropy), authValue, o.result.value.params, o.state.tpm.log,
                        |w.tpm.log|, j)
      && (NeverFlushed(dev, w.schedule, s.handle) ==>
            && OnlyRecord(o.state.tpm.log, |w.tpm.log|, s.handle, j)
            && o.auth.SessionView? && InStep(o.auth.session, o.state.tpm))
  {
    var s' := SignedSession(s, entropy);
    var o := RunCall(c, Link(c, dev), w, call, SessionView(s, authValue), entropy);
    CallOverAnyTransport(c, dev, w, call, s, authValue, entropy, used);
    j := BelievedMeansCarriedOut(c, dev, w.tpm, o.state.tpm, call, s', authValue, o.last.value, signed, used,
                                 DrawnIn(w.schedule), NeverFlushed(dev, w.schedule, s.handle));
  }

  /** A device in this state was given the command, on objects with these Names,
      went over into that state and returned these parameters. */
  ghost predicate Executes<D>(dev: Device<D>, before: D, call: Call, params: bytes, after: D) {
    exists handles :: NamesOf(dev, before, handles) == call.names
      && dev.exec(before, true, call.code, handles, call.params).0 == after
      && Returns(dev.exec(before, true, call.code, handles, call.params).1, params)
  }

  predicate Returns(answer: Answer, params: bytes) {
    answer.Done? && answer.params == params
  }

  /** Of these frames the k-th made the device execute the command; no other was
      carried out under the host's key with this nonceCaller, and if it was calm
      no other was carried out for the session at all. */
  ghost predicate ExecutedOnce<D>(c: Crypto, dev: Device<D>, tpm: TpmState<D>, frames: seq<Arrival>, call: Call,
                                  s: SessionState, authValue: bytes, params: bytes, calm: bool, k: nat)
  {
    && CarriedOutAt(c, dev, tpm, frames, k)
    && Executes(dev, ServeAll(c, dev, tpm, frames[..k]).device, call, params,
                ServeAll(c, dev, tpm, frames[..k + 1]).device)
    && (forall i | 0 <= i < |frames| && i != k && CarriedOutAt(c, dev, tpm, frames, i) ::
          var e := RecordAt(c, dev, tpm, frames, i);
          && !(UnderKey(e, s.alg, HostKey(call, s, authValue)) && e.signed.nonceCaller == s.nonceCaller)
          && (calm ==> e.session != s.handle))
  }

  /** What the log says of one record the frames served say of one step. */
  lemma RecordIsExecution<D>(c: Crypto, dev: Device<D>, tpm: TpmState<D>, frames: seq<Arrival>, call: Call,
                             s: SessionState, authValue: bytes, params: bytes, calm: bool, j: nat) returns (k: nat)
    requires var log := ServeAll(c, dev, tpm, frames).log;
      && CarriedOutOnce(c, call, s, authValue, params, log, |tpm.log|, j)
      && (calm ==> OnlyRecord(log, |tpm.log|, s.handle, j))
    ensures ExecutedOnce(c, dev, tpm, frames, call, s, authValue, params, calm, k)
  {
    k := RecordIsOfStep(c, dev, tpm, frames, j);
    RecordStays(c, dev, tpm, frames, k);
    RecordExecutes(c, dev, ServeAll(c, dev, tpm, frames[..k]), ServeAll(c, dev, tpm, frames[..k + 1]), frames[k], call);
    forall i | 0 <= i < |frames| && i != k && CarriedOutAt(c, dev, tpm, frames, i)
      ensures var e := RecordAt(c, dev, tpm, frames, i);
        && !(UnderKey(e, s.alg, HostKey(call, s, authValue)) && e.signed.nonceCaller == s.nonceCaller)
        && (calm ==> e.session != s.handle)
    {
      RecordStays(c, dev, tpm, frames, i);
      if i < k {
        RecordsInOrder(c, dev, tpm, frames, i, k);
      } else {
        RecordsInOrder(c, dev, tpm, frames, k, i);
      }
    }
  }

  lemma RecordExecutes<D>(c: Crypto, dev: Device<D>, before: TpmState<D>, after: TpmState<D>, a: Arrival, call: Call)
    requires CarriesOut(c, dev, before, after, a.frame, a.draw)
    requires var e := after.log[|before.log|]; e.code == call.code && e.names == call.names && e.request == call.params
    ensures Executes(dev, before.device, call, after.log[|before.log|].params, after.device)
  {
  }

  /** Over any transport whatsoever, which hands the TPM any frames: when a
      session command succeeds with a reply that carries the sessions tag, the
      TPM carried out exactly this command for the session, once and never
      before: the device executed it in the state that it then had, and what the
      host gets is what that returned.  If nobody flushed the session meanwhile,
      the TPM carried out no other command of it, and both ends hold the same
      nonce. */
  lemma AuthenticCall<D(!new)>(
    c: Crypto, dev: Device<D>, w: World<D>, call: Call, s: SessionState, authValue: bytes, entropy: bytes,
    used: set<bytes>, signed: seq<Signed>) returns (j: nat, k: nat)
    requires InStep(s, w.tpm) && Sound(c, dev, w.tpm, used) && FreshSchedule(w.schedule, used)
    requires var o := RunCall(c, Link(c, dev), w, call, SessionView(s, authValue), entropy);
      && o.result.Success? && o.last.Success? && Tagged(call, o.last.value)
      && Trustworthy(c, dev, call, ReadReply(call.respHandles, o.last.value).value, SignedSession(s, entropy),
                     authValue, o.state.tpm.log,
                     FirstConcerned(NeverFlushed(dev, w.schedule, s.handle), w.tpm.log, o.state.tpm.log), signed, used)
    ensures var o := RunCall(c, Link(c, dev), w, call, SessionView(s, authValue), entropy);
      && CarriedOutOnce(c, call, SignedSession(s, entropy), authValue, o.result.value.params, o.state.tpm.log,
                        |w.tpm.log|, j)
      && (NeverFlushed(dev, w.schedule, s.handle) ==>
            && OnlyRecord(o.state.tpm.log, |w.tpm.log|, s.handle, j)
            && o.auth.SessionView? && InStep(o.auth.session, o.state.tpm))
    ensures var o := RunCall(c, Link(c, dev), w, call, SessionView(s, authValue), entropy);
      var frame := SignedFrame(c, call, SignedSession(s, entropy), authValue);
      && Took(c, dev, w, o.state, frame)
      && ExecutedOnce(c, dev, w.tpm, Handed(w.schedule, |o.state.schedule|, frame), call, SignedSession(s, entropy),
                      authValue, o.result.value.params, NeverFlushed(dev, w.schedule, s.handle), k)
  {
    var o := RunCall(c, Link(c, dev), w, call, SessionView(s, authValue), entropy);
    var s' := SignedSession(s, entropy);
    var frame := SignedFrame(c, call, s', authValue);
    j := AuthenticRecord(c, dev, w, call, s, authValue, entropy, used, signed);
    SessionCallTook(c, dev, w, call, s, authValue, entropy);
    k := RecordIsExecution(c, dev, w.tpm, Handed(w.schedule, |o.state.schedule|, frame), call, s', authValue,
                           o.result.value.params, NeverFlushed(dev, w.schedule, s.handle), j);
  }

  /** The hypotheses are met wherever they should be: for the first command of a
      TPM, carried out and answered, all that they ask is that the hashes of
      the command and of its response differ. */
  lemma AnsweredIsTrustworthy<D>(c: Crypto, dev: Device<D>, tpm: TpmState<D>, call: Call, s: SessionState,
                                 authValue: bytes, draw: Draw, used: set<bytes>)
    requires InStep(s, tpm) && Faithful(c, dev, tpm.device, call, s, authValue)
    requires call.code != 0 && s.nonceTpm in used && AreNames(call.names)
    requires var e := Record(c, dev, tpm, call, s, authValue, draw);
      c.hash(s.alg, CpInput(call.code, call.names, call.params)) != c.hash(s.alg, RpInput(0, e.code, e.params))
    ensures var e := Record(c, dev, tpm, call, s, authValue, draw);
      Trustworthy(c, dev, call, Reply(ST_SESSIONS, e.handles, e.params, Some(ReplyEntry(c, e))), s, authValue, [e], 0,
                  [Current(call, s)], used)
  {
    var e := Record(c, dev, tpm, call, s, authValue, draw);
    var log, signed := [e], [Current(call, s)];
    assert call.names[0] == call.ObjectName();
    assert e.key == HostKey(call, s, authValue) && e.names == call.names && e.request == call.params;
    assert SignedMessage(c, s.alg, signed[0]) == CommandMessage(c, log[0]);
    assert ReplyMessage(c, log[0])
      == CheckedMessage(c, call, Reply(ST_SESSIONS, e.handles, e.params, Some(ReplyEntry(c, e))), s);
  }

  // ---------- whole runs over any transport ----------

  ghost function DrawnByAction(a: Action): set<bytes> {
    match a
    case Use(_, _, _, events) => DrawnIn(events)
    case Other(_, draw) => {draw.nonce}
  }

  ghost predicate FreshAction(a: Action, used: set<bytes>) {
    match a
    case Use(_, _, _, events) => FreshSchedule(events, used)
    case Other(_, draw) => draw.nonce !in used
  }

  /** No nonce is drawn twice in the whole run, by whatever command. */
  ghost predicate FreshRun(actions: seq<Action>, used: set<bytes>)
    decreases |actions|
  {
    actions == [] ||
    (FreshAction(actions[0], used) && FreshRun(actions[1..], used + DrawnByAction(actions[0])))
  }

  /** A reply with the sessions tag was believed. */
  ghost predicate Answered<D>(c: Crypto, dev: Device<D>, x: Ends<D>, a: Action)
    requires a.Use?
  {
    var o := UseOutcome(c, dev, x, a);
    o.result.Success? && o.last.Success? && Tagged(a.call, o.last.value)
  }

  /** Nobody flushes the session, and a tagged reply that is believed comes with
      the hypotheses about forgery and collisions. */
  ghost predicate Guarded<D>(c: Crypto, dev: Device<D>, x: Ends<D>, a: Action, used: set<bytes>) {
    match a
    case Other(frame, _) => !Flushes(dev, frame, x.session.handle)
    case Use(call, authValue, entropy, events) =>
      && NeverFlushed(dev, events, x.session.handle)
      && (Answered(c, dev, x, a) ==> exists signed :: TrustedUse(c, dev, x, a, signed, used))
  }

  ghost predicate TrustedUse<D>(c: Crypto, dev: Device<D>, x: Ends<D>, a: Action, signed: seq<Signed>, used: set<bytes>)
    requires a.Use? && Answered(c, dev, x, a)
  {
    var o := UseOutcome(c, dev, x, a);
    Trustworthy(c, dev, a.call, ReadReply(a.call.respHandles, o.last.value).value, SignedSession(x.session, a.entropy),
                a.authValue, o.state.tpm.log, |x.tpm.log|, signed, used)
  }

  /** A command of the session was carried out, and the host did not learn of it
      by a tagged reply: the reply was lost, rejected or replaced by one without
      the tag, or the frame came from elsewhere. */
  ghost predicate Unanswered<D>(c: Crypto, dev: Device<D>, x: Ends<D>, a: Action) {
    && !NoneOf(Act(c, dev, x, a).tpm.log, |x.tpm.log|, x.session.handle)
    && (a.Use? ==> !Answered(c, dev, x, a))
  }

  lemma OtherKeepsStep<D>(c: Crypto, dev: Device<D>, x: Ends<D>, frame: bytes, draw: Draw, used: set<bytes>)
    requires InStep(x.session, x.tpm) && Sound(c, dev, x.tpm, used) && draw.nonce !in used
    requires !Flushes(dev, frame, x.session.handle)
    ensures var after := Serve(c, dev, x.tpm, frame, draw).tpm;
      && Sound(c, dev, after, used + {draw.nonce})
      && (NoneOf(after.log, |x.tpm.log|, x.session.handle) ==> InStep(x.session, after))
  {
    ServeSound(c, dev, x.tpm, frame, draw, used);
    ServeSessionStep(c, dev, x.tpm, frame, draw, x.session.handle);
  }

  lemma GuardedKeepsStep<D(!new)>(c: Crypto, dev: Device<D>, x: Ends<D>, a: Action, used: set<bytes>)
    requires InStep(x.session, x.tpm) && Sound(c, dev, x.tpm, used) && FreshAction(a, used)
    requires Guarded(c, dev, x, a, used)
    ensures var x' := Act(c, dev, x, a);
      && Sound(c, dev, x'.tpm, used + DrawnByAction(a))
      && (InStep(x'.session, x'.tpm) || Unanswered(c, dev, x, a))
  {
    match a {
      case Other(frame, draw) =>
        OtherKeepsStep(c, dev, x, frame, draw, used);
      case Use(call, authValue, entropy, events) =>
        var w := World(x.tpm, events);
        CallOverAnyTransport(c, dev, w, call, x.session, authValue, entropy, used);
        if Answered(c, dev, x, a) {
          var signed :| TrustedUse(c, dev, x, a, signed, used);
          var _ := AuthenticRecord(c, dev, w, call, x.session, authValue, entropy, used, signed);
        } else {
          UntaggedKeepsSession(c, dev, x, a);
        }
    }
  }

  /** Without a tagged reply the host's nonceTPM stays what it was. */
  lemma UntaggedKeepsSession<D>(c: Crypto, dev: Device<D>, x: Ends<D>, a: Action)
    requires a.Use? && !Answered(c, dev, x, a) && IsHash(x.session.alg)
    requires var o := UseOutcome(c, dev, x, a);
      var view := SessionView(SignedSession(x.session, a.entropy), a.authValue);
      if o.last.Success? then ParseResponse(c, a.call, o.last.value, view) == (o.result, o.auth)
      else o.result.Failure? && o.auth == view
    ensures Act(c, dev, x, a).session == SignedSession(x.session, a.entropy)
  {
    var o := UseOutcome(c, dev, x, a);
    if o.last.Success? {
      BelievedExactly(c, a.call, o.last.value, SignedSession(x.session, a.entropy), a.authValue);
    }
  }

  /** Every action is guarded in the state it meets, up to the first unanswered
      command; used are the nonces the TPM has drawn so far. */
  ghost predicate GuardedRun<D>(c: Crypto, dev: Device<D>, x: Ends<D>, actions: seq<Action>, used: set<bytes>)
    decreases |actions|
  {
    actions == [] ||
    (&& Guarded(c, dev, x, actions[0], used)
     && (|| Unanswered(c, dev, x, actions[0])
         || GuardedRun(c, dev, Act(c, dev, x, actions[0]), actions[1..], used + DrawnByAction(actions[0]))))
  }

  /** Some command of the session was carried out unanswered in the run. */
  ghost predicate UnansweredSome<D>(c: Crypto, dev: Device<D>, x: Ends<D>, actions: seq<Action>)
    decreases |actions|
  {
    actions != [] &&
    (Unanswered(c, dev, x, actions[0]) || UnansweredSome(c, dev, Act(c, dev, x, actions[0]), actions[1..]))
  }

  /** Over every run and any transport: the two nonces agree, unless the TPM
      carried a command of the session out without the host believing a tagged
      reply to it. */
  lemma {:induction false} AuthenticRun<D(!new)>(c: Crypto, dev: Device<D>, x: Ends<D>, actions: seq<Action>,
                                                 used: set<bytes>)
    requires InStep(x.session, x.tpm) && Sound(c, dev, x.tpm, used)
    requires FreshRun(actions, used) && GuardedRun(c, dev, x, actions, used)
    ensures var end := ActAll(c, dev, x, actions);
      InStep(end.session, end.tpm) || UnansweredSome(c, dev, x, actions)
    decreases |actions|
  {
    if actions != [] && !Unanswered(c, dev, x, actions[0]) {
      GuardedKeepsStep(c, dev, x, actions[0], used);
      AuthenticRun(c, dev, Act(c, dev, x, actions[0]), actions[1..], used + DrawnByAction(actions[0]));
    }
  }

  // ---------- after a command went unanswered ----------

  /** The host draws a nonceCaller that no command carried out so far has had. */
  ghost predicate FreshCaller(log: seq<Entry>, entropy: bytes) {
    forall i | 0 <= i < |log| :: log[i].signed.nonceCaller != entropy
  }

  /** The hypotheses about forgery and collisions, should a tagged reply be
      believed; whatever has become of the TPM's session, only records under the
      host's key matter. */
  ghost predicate Doubted<D>(c: Crypto, dev: Device<D>, x: Ends<D>, a: Action, signed: seq<Signed>, used: set<bytes>)
    requires a.Use? && Answered(c, dev, x, a)
  {
    var o := UseOutcome(c, dev, x, a);
    Trustworthy(c, dev, a.call, ReadReply(a.call.respHandles, o.last.value).value, SignedSession(x.session, a.entropy),
                a.authValue, o.state.tpm.log, |o.state.tpm.log|, signed, used)
  }

  ghost predicate Wary<D>(c: Crypto, dev: Device<D>, x: Ends<D>, a: Action, used: set<bytes>) {
    a.Use? ==>
      && FreshCaller(x.tpm.log, a.entropy)
      && (Answered(c, dev, x, a) ==> exists signed :: Doubted(c, dev, x, a, signed, used))
  }

  /** A genuine reply has a record at the host's nonceTPM with its nonceCaller. */
  lemma GenuineIsAtNonce<D>(c: Crypto, dev: Device<D>, call: Call, reply: Reply, s: SessionState, authValue: bytes,
                            log: seq<Entry>, n: nat, signed: seq<Signed>, used: set<bytes>) returns (j: nat)
    requires Genuine(c, call, reply, s, authValue) && AllRecorded(c, dev, log)
    requires Trustworthy(c, dev, call, reply, s, authValue, log, n, signed, used)
    ensures j < |log| && log[j].nonceBefore == s.nonceTpm && log[j].signed.nonceCaller == s.nonceCaller
  {
    j := ReplyAgreement(c, dev, call, reply, s, authValue, log, n, signed, used);
    var k := HostSigned(c, dev, call, reply, s, authValue, log, n, signed, used, j);
  }

  lemma SpentByOthers<D>(tpm: TpmState<D>, after: TpmState<D>, s: SessionState, used: set<bytes>, j: nat)
    requires Spent(tpm.log, s.nonceTpm) && FreshCaller(tpm.log, s.nonceCaller) && tpm.log <= after.log
    requires NoncesDistinct(after, used) && j < |after.log| && after.log[j].nonceBefore == s.nonceTpm
    ensures after.log[j].signed.nonceCaller != s.nonceCaller
  {
    var i :| 0 <= i < |tpm.log| && tpm.log[i].nonceBefore == s.nonceTpm;
    assert after.log[i] == tpm.log[i];
  }

  /** At a nonce that has been spent no reply to a new nonceCaller is genuine. */
  lemma SpentIsNotAnswered<D>(c: Crypto, dev: Device<D>, tpm: TpmState<D>, after: TpmState<D>, call: Call,
                              reply: Reply, s: SessionState, authValue: bytes, signed: seq<Signed>, used: set<bytes>,
                              drawn: set<bytes>)
    requires Spent(tpm.log, s.nonceTpm) && FreshCaller(tpm.log, s.nonceCaller) && tpm.log <= after.log
    requires Sound(c, dev, after, used + drawn)
    requires Trustworthy(c, dev, call, reply, s, authValue, after.log, |after.log|, signed, used)
    ensures !Genuine(c, call, reply, s, authValue)
  {
    if Genuine(c, call, reply, s, authValue) {
      var j := GenuineIsAtNonce(c, dev, call, reply, s, authValue, after.log, |after.log|, signed, used);
      SpentByOthers(tpm, after, s, used + drawn, j);
    }
  }

  /** A call at a spent nonce, over any transport whatsoever, gets no tagged reply
      that is believed, and the nonce remains spent. */
  lemma SpentStaysUnanswered<D(!new)>(c: Crypto, dev: Device<D>, x: Ends<D>, a: Action, used: set<bytes>)
    requires a.Use? && IsHash(x.session.alg) && Spent(x.tpm.log, x.session.nonceTpm)
    requires Sound(c, dev, x.tpm, used) && FreshAction(a, used) && Wary(c, dev, x, a, used)
    ensures !Answered(c, dev, x, a)
    ensures var x' := Act(c, dev, x, a);
      && x'.session == SignedSession(x.session, a.entropy) && x.tpm.log <= x'.tpm.log
      && Sound(c, dev, x'.tpm, used + DrawnByAction(a))
  {
    var w, o, s := World(x.tpm, a.events), UseOutcome(c, dev, x, a), SignedSession(x.session, a.entropy);
    SessionCallTook(c, dev, w, a.call, x.session, a.authValue, a.entropy);
    TookSound(c, dev, w, o.state, SignedFrame(c, a.call, s, a.authValue), used);
    if Answered(c, dev, x, a) {
      var signed :| Doubted(c, dev, x, a, signed, used);
      BelievedExactly(c, a.call, o.last.value, s, a.authValue);
      SpentIsNotAnswered(c, dev, x.tpm, o.state.tpm, a.call, ReadReply(a.call.respHandles, o.last.value).value, s,
                         a.authValue, signed, used, DrawnIn(a.events));
      assert false;
    }
    UntaggedKeepsSession(c, dev, x, a);
  }

  lemma SpentActs<D(!new)>(c: Crypto, dev: Device<D>, x: Ends<D>, a: Action, used: set<bytes>)
    requires IsHash(x.session.alg) && Spent(x.tpm.log, x.session.nonceTpm)
    requires Sound(c, dev, x.tpm, used) && FreshAction(a, used) && Wary(c, dev, x, a, used)
    ensures a.Use? ==> !Answered(c, dev, x, a)
    ensures var x' := Act(c, dev, x, a);
      && x'.session == x.session.(nonceCaller := x'.session.nonceCaller)
      && Spent(x'.tpm.log, x'.session.nonceTpm) && Sound(c, dev, x'.tpm, used + DrawnByAction(a))
  {
    var x' := Act(c, dev, x, a);
    match a {
      case Other(frame, draw) =>
        ServeSound(c, dev, x.tpm, frame, draw, used);
        ServeLogs(c, dev, x.tpm, frame, draw);
      case Use(_, _, _, _) =>
        SpentStaysUnanswered(c, dev, x, a, used);
    }
    SpentStays(x.tpm.log, x'.tpm.log, x.session.nonceTpm);
  }

  ghost predicate WaryRun<D>(c: Crypto, dev: Device<D>, x: Ends<D>, actions: seq<Action>, used: set<bytes>)
    decreases |actions|
  {
    actions == [] ||
    (&& Wary(c, dev, x, actions[0], used)
     && WaryRun(c, dev, Act(c, dev, x, actions[0]), actions[1..], used + DrawnByAction(actions[0])))
  }

  /** No call of the run gets a tagged reply that the host believes. */
  ghost predicate NoneAnswered<D>(c: Crypto, dev: Device<D>, x: Ends<D>, actions: seq<Action>)
    decreases |actions|
  {
    actions == [] ||
    (&& (actions[0].Use? ==> !Answered(c, dev, x, actions[0]))
     && NoneAnswered(c, dev, Act(c, dev, x, actions[0]), actions[1..]))
  }

  /** Once the host's nonceTPM is spent, whatever the transport does and whatever
      becomes of the TPM's session, the host believes no tagged reply any more
      and keeps that nonce. */
  lemma {:induction false} SpentRun<D(!new)>(c: Crypto, dev: Device<D>, x: Ends<D>, actions: seq<Action>,
                                             used: set<bytes>)
    requires IsHash(x.session.alg) && Spent(x.tpm.log, x.session.nonceTpm) && Sound(c, dev, x.tpm, used)
    requires FreshRun(actions, used) && WaryRun(c, dev, x, actions, used)
    ensures NoneAnswered(c, dev, x, actions)
    ensures ActAll(c, dev, x, actions).session.nonceTpm == x.session.nonceTpm
    decreases |actions|
  {
    if actions != [] {
      SpentActs(c, dev, x, actions[0], used);
      SpentRun(c, dev, Act(c, dev, x, actions[0]), actions[1..], used + DrawnByAction(actions[0]));
    }
  }

  /** A command carried out unanswered has spent the host's nonceTPM. */
  lemma UnansweredIsSpent<D(!new)>(c: Crypto, dev: Device<D>, x: Ends<D>, a: Action, used: set<bytes>)
    requires InStep(x.session, x.tpm) && Sound(c, dev, x.tpm, used) && FreshAction(a, used)
    requires Guarded(c, dev, x, a, used) && Unanswered(c, dev, x, a)
    ensures var x' := Act(c, dev, x, a);
      && Spent(x'.tpm.log, x'.session.nonceTpm) && x'.session.alg == x.session.alg
      && Sound(c, dev, x'.tpm, used + DrawnByAction(a))
  {
    match a {
      case Other(frame, draw) =>
        OtherKeepsStep(c, dev, x, frame, draw, used);
        var after := Serve(c, dev, x.tpm, frame, draw).tpm;
        ServeSessionStep(c, dev, x.tpm, frame, draw, x.session.handle);
        assert after.log[|x.tpm.log|].nonceBefore == x.session.nonceTpm;
      case Use(call, authValue, entropy, events) =>
        CallOverAnyTransport(c, dev, World(x.tpm, events), call, x.session, authValue, entropy, used);
        UntaggedKeepsSession(c, dev, x, a);
    }
  }

  /** Guarded up to the first unanswered command, and wary from then on. */
  ghost predicate CarefulRun<D>(c: Crypto, dev: Device<D>, x: Ends<D>, actions: seq<Action>, used: set<bytes>)
    decreases |actions|
  {
    actions == [] ||
    (&& Guarded(c, dev, x, actions[0], used)
     && var x', used' := Act(c, dev, x, actions[0]), used + DrawnByAction(actions[0]);
        if Unanswered(c, dev, x, actions[0]) then WaryRun(c, dev, x', actions[1..], used')
        else CarefulRun(c, dev, x', actions[1..], used'))
  }

  /** The nonces agree before every action, up to the first unanswered command;
      from then on no tagged reply is believed. */
  ghost predicate InStepOrSilent<D>(c: Crypto, dev: Device<D>, x: Ends<D>, actions: seq<Action>)
    decreases |actions|
  {
    && InStep(x.session, x.tpm)
    && (actions != [] ==>
          var x' := Act(c, dev, x, actions[0]);
          if Unanswered(c, dev, x, actions[0]) then NoneAnswered(c, dev, x', actions[1..])
          else InStepOrSilent(c, dev, x', actions[1..]))
  }

  /** Over every run and any transport, to its end: as long as every command of
      the session that is carried out is answered, the nonces agree; once one was
      not, the host never believes a tagged reply again. */
  lemma {:induction false} AuthenticToTheEnd<D(!new)>(c: Crypto, dev: Device<D>, x: Ends<D>, actions: seq<Action>,
                                                      used: set<bytes>)
    requires InStep(x.session, x.tpm) && Sound(c, dev, x.tpm, used)
    requires FreshRun(actions, used) && CarefulRun(c, dev, x, actions, used)
    ensures InStepOrSilent(c, dev, x, actions)
    decreases |actions|
  {
    if actions != [] {
      var x', used' := Act(c, dev, x, actions[0]), used + DrawnByAction(actions[0]);
      if Unanswered(c, dev, x, actions[0]) {
        UnansweredIsSpent(c, dev, x, actions[0], used);
        SpentRun(c, dev, x', actions[1..], used');
      } else {
        GuardedKeepsStep(c, dev, x, actions[0], used);
        AuthenticToTheEnd(c, dev, x', actions[1..], used');
      }
    }
  }

  // ---------- a transport that only replays ----------

  /** A command as the host sent it. */
  datatype Sending = Sending(call: Call, session: SessionState, authValue: bytes)

  function SignedOf(sendings: seq<Sending>): seq<Signed> {
    seq(|sendings|, i requires 0 <= i < |sendings| => Current(sendings[i].call, sendings[i].session))
  }

  /** The frame of a record concerned is one that the host sent. */
  ghost predicate SentByHost<D>(c: Crypto, dev: Device<D>, s: SessionState, e: Entry, x: Sending) {
    && x.session.alg == s.alg && |x.call.handles| == dev.handleCount(x.call.code)
    && SignedCommand(c, x.call, x.session, x.authValue).Fits()
    && e.frame == SignedFrame(c, x.call, x.session, x.authValue)
  }

  /** The reply is one the TPM made.  Read with another number of handles than it
      has, it must not carry a valid HMAC: that much unforgeability is assumed,
      because the contents of replies are anybody's. */
  ghost predicate MadeByTpm(c: Crypto, call: Call, resp: bytes, s: SessionState, authValue: bytes, e: Entry) {
    && resp == EntryReply(c, e)
    && ReplyFits(e.handles, e.params, Some(ReplyEntry(c, e)), [])
    && (|e.handles| != call.respHandles && ReadReply(call.respHandles, resp).Parsed? ==>
          !Genuine(c, call, ReadReply(call.respHandles, resp).value, s, authValue))
  }

  /** For a reply that the TPM made, read with as many handles as it has, the
      absence of an HMAC collision is all that unforgeability asks. */
  lemma ReplayIsUnforged(c: Crypto, call: Call, resp: bytes, s: SessionState, authValue: bytes,
                         log: seq<Entry>, signed: seq<Signed>, i: nat)
    requires i < |log| && MadeByTpm(c, call, resp, s, authValue, log[i]) && Tagged(call, resp)
    requires ReplyMacDistinct(c, call, ReadReply(call.respHandles, resp).value, s, authValue, log[i])
    ensures Unforged(c, call, ReadReply(call.respHandles, resp).value, s, authValue, log, signed)
  {
    var e := log[i];
    if |e.handles| == call.respHandles {
      ReplyRoundTrip(e.handles, e.params, Some(ReplyEntry(c, e)), []);
      assert ReadReply(call.respHandles, resp).value == Reply(ST_SESSIONS, e.handles, e.params, Some(ReplyEntry(c, e)));
    }
  }

  /** The HMAC of this record's reply is the one the host expects only if it is
      of the same message under the same key. */
  ghost predicate ReplyMacDistinct(c: Crypto, call: Call, reply: Reply, s: SessionState, authValue: bytes, e: Entry) {
    reply.auth.Some? && c.hmac(e.alg, e.key, ReplyMessage(c, e))
                     == c.hmac(s.alg, HostKey(call, s, authValue), CheckedMessage(c, call, reply, s))
    ==> UnderKey(e, s.alg, HostKey(call, s, authValue)) && ReplyMessage(c, e) == CheckedMessage(c, call, reply, s)
  }

  /** The HMAC of a command the host sent is the one this record was checked
      against only if it is of the same message. */
  ghost predicate CommandMacDistinct(c: Crypto, e: Entry, x: Sending) {
    var m := SignedMessage(c, x.session.alg, Current(x.call, x.session));
    c.hmac(e.alg, e.key, CommandMessage(c, e)) == c.hmac(x.session.alg, HostKey(x.call, x.session, x.authValue), m)
    ==> CommandMessage(c, e) == m
  }

  /** A record of a frame that the host sent is of the message it signed. */
  lemma ReplayIsVouched<D>(c: Crypto, dev: Device<D>, s: SessionState, e: Entry, x: Sending)
    requires Recorded(c, dev, e) && SentByHost(c, dev, s, e, x) && CommandMacDistinct(c, e, x)
    ensures SignedMessage(c, s.alg, Current(x.call, x.session)) == CommandMessage(c, e)
  {
    CommandRoundTrip(dev.handleCount, SignedCommand(c, x.call, x.session, x.authValue));
  }

  /** The transport keeps, delays, repeats and exchanges, but makes nothing up,
      and neither HMAC nor hash collides. */
  ghost predicate OnlyReplays<D>(c: Crypto, dev: Device<D>, call: Call, resp: bytes, s: SessionState, authValue: bytes,
                                 log: seq<Entry>, n: nat, sendings: seq<Sending>, used: set<bytes>)
    requires Tagged(call, resp)
  {
    var reply, key := ReadReply(call.respHandles, resp).value, HostKey(call, s, authValue);
    && (exists i :: 0 <= i < |log| && MadeByTpm(c, call, resp, s, authValue, log[i])
          && ReplyMacDistinct(c, call, reply, s, authValue, log[i]))
    && (forall i | 0 <= i < |log| && Concerned(s, key, log, n, i) ::
          exists k :: 0 <= k < |sendings| && SentByHost(c, dev, s, log[i], sendings[k])
            && CommandMacDistinct(c, log[i], sendings[k]))
    && NoHashCollision(c, call, reply, s, key, log, n, SignedOf(sendings))
    && Orderly(dev.handleCount, call, s, key, log, n, SignedOf(sendings), used)
  }

  lemma ReplaysAreTrustworthy<D>(
    c: Crypto, dev: Device<D>, call: Call, resp: bytes, s: SessionState, authValue: bytes,
    log: seq<Entry>, n: nat, sendings: seq<Sending>, used: set<bytes>)
    requires Tagged(call, resp) && AllRecorded(c, dev, log)
    requires OnlyReplays(c, dev, call, resp, s, authValue, log, n, sendings, used)
    ensures Trustworthy(c, dev, call, ReadReply(call.respHandles, resp).value, s, authValue, log, n, SignedOf(sendings),
                        used)
  {
    var reply, key, signed := ReadReply(call.respHandles, resp).value, HostKey(call, s, authValue), SignedOf(sendings);
    var i :| 0 <= i < |log| && MadeByTpm(c, call, resp, s, authValue, log[i])
      && ReplyMacDistinct(c, call, reply, s, authValue, log[i]);
    ReplayIsUnforged(c, call, resp, s, authValue, log, signed, i);
    forall i | 0 <= i < |log| && Concerned(s, key, log, n, i)
      ensures exists k :: 0 <= k < |signed| && SignedMessage(c, s.alg, signed[k]) == CommandMessage(c, log[i])
    {
      var k :| 0 <= k < |sendings| && SentByHost(c, dev, s, log[i], sendings[k])
        && CommandMacDistinct(c, log[i], sendings[k]);
      ReplayIsVouched(c, dev, s, log[i], sendings[k]);
      assert SignedMessage(c, s.alg, signed[k]) == CommandMessage(c, log[i]);
    }
  }

  /** The guard of a run whose transport only replays. */
  ghost predicate ReplayGuarded<D>(c: Crypto, dev: Device<D>, x: Ends<D>, a: Action, used: set<bytes>) {
    match a
    case Other(frame, _) => !Flushes(dev, frame, x.session.handle)
    case Use(call, authValue, entropy, events) =>
      && NeverFlushed(dev, events, x.session.handle)
      && (Answered(c, dev, x, a) ==>
            var o := UseOutcome(c, dev, x, a);
            exists sendings :: OnlyReplays(c, dev, call, o.last.value, SignedSession(x.session, entropy), authValue,
                                           o.state.tpm.log, |x.tpm.log|, sendings, used))
  }

  lemma ReplayGuardedIsGuarded<D(!new)>(c: Crypto, dev: Device<D>, x: Ends<D>, a: Action, used: set<bytes>)
    requires InStep(x.session, x.tpm) && Sound(c, dev, x.tpm, used) && FreshAction(a, used)
    requires ReplayGuarded(c, dev, x, a, used)
    ensures Guarded(c, dev, x, a, used)
  {
    if a.Use? && Answered(c, dev, x, a) {
      var o, s := UseOutcome(c, dev, x, a), SignedSession(x.session, a.entropy);
      CallOverAnyTransport(c, dev, World(x.tpm, a.events), a.call, x.session, a.authValue, a.entropy, used);
      var sendings :| OnlyReplays(c, dev, a.call, o.last.value, s, a.authValue, o.state.tpm.log, |x.tpm.log|,
                                  sendings, used);
      ReplaysAreTrustworthy(c, dev, a.call, o.last.value, s, a.authValue, o.state.tpm.log, |x.tpm.log|, sendings, used);
      assert TrustedUse(c, dev, x, a, SignedOf(sendings), used);
    }
  }

  ghost predicate ReplayGuardedRun<D>(c: Crypto, dev: Device<D>, x: Ends<D>, actions: seq<Action>, used: set<bytes>)
    decreases |actions|
  {
    actions == [] ||
    (&& ReplayGuarded(c, dev, x, actions[0], used)
     && (|| Unanswered(c, dev, x, actions[0])
         || ReplayGuardedRun(c, dev, Act(c, dev, x, actions[0]), actions[1..], used + DrawnByAction(actions[0]))))
  }

  /** Over every run on a transport that only replays frames and replies, absent
      collisions and valid HMACs in replies read with another number of handles:
      the two nonces agree, unless a command of the session was carried out
      unanswered. */
  lemma {:induction false} ReplayRun<D(!new)>(c: Crypto, dev: Device<D>, x: Ends<D>, actions: seq<Action>,
                                              used: set<bytes>)
    requires InStep(x.session, x.tpm) && Sound(c, dev, x.tpm, used)
    requires FreshRun(actions, used) && ReplayGuardedRun(c, dev, x, actions, used)
    ensures var end := ActAll(c, dev, x, actions);
      InStep(end.session, end.tpm) || UnansweredSome(c, dev, x, actions)
    decreases |actions|
  {
    if actions != [] && !Unanswered(c, dev, x, actions[0]) {
      ReplayKeepsStep(c, dev, x, actions[0], used);
      ReplayRun(c, dev, Act(c, dev, x, actions[0]), actions[1..], used + DrawnByAction(actions[0]));
    }
  }

  lemma ReplayKeepsStep<D(!new)>(c: Crypto, dev: Device<D>, x: Ends<D>, a: Action, used: set<bytes>)
    requires InStep(x.session, x.tpm) && Sound(c, dev, x.tpm, used) && FreshAction(a, used)
    requires ReplayGuarded(c, dev, x, a, used) && !Unanswered(c, dev, x, a)
    ensures var x' := Act(c, dev, x, a);
      Sound(c, dev, x'.tpm, used + DrawnByAction(a)) && InStep(x'.session, x'.tpm)
  {
    ReplayGuardedIsGuarded(c, dev, x, a, used);
    GuardedKeepsStep(c, dev, x, a, used);
  }

  /** A TPM stays sound, whatever the action. */
  lemma ActSound<D(!new)>(c: Crypto, dev: Device<D>, x: Ends<D>, a: Action, used: set<bytes>)
    requires IsHash(x.session.alg) && Sound(c, dev, x.tpm, used) && FreshAction(a, used)
    ensures Sound(c, dev, Act(c, dev, x, a).tpm, used + DrawnByAction(a))
  {
    match a {
      case Other(frame, draw) =>
        ServeSound(c, dev, x.tpm, frame, draw, used);
      case Use(call, authValue, entropy, events) =>
        var frame := SignedFrame(c, call, SignedSession(x.session, entropy), authValue);
        SessionCallTook(c, dev, World(x.tpm, events), call, x.session, authValue, entropy);
        TookSound(c, dev, World(x.tpm, events), UseOutcome(c, dev, x, a).state, frame, used);
    }
  }

  ghost predicate ReplayWary<D>(c: Crypto, dev: Device<D>, x: Ends<D>, a: Action, used: set<bytes>) {
    a.Use? ==>
      && FreshCaller(x.tpm.log, a.entropy)
      && (Answered(c, dev, x, a) ==>
            var o := UseOutcome(c, dev, x, a);
            var s := SignedSession(x.session, a.entropy);
            exists sendings :: OnlyReplays(c, dev, a.call, o.last.value, s, a.authValue, o.state.tpm.log,
                                           |o.state.tpm.log|, sendings, used))
  }

  lemma ReplayWaryIsWary<D(!new)>(c: Crypto, dev: Device<D>, x: Ends<D>, a: Action, used: set<bytes>)
    requires IsHash(x.session.alg) && Sound(c, dev, x.tpm, used) && FreshAction(a, used)
    requires ReplayWary(c, dev, x, a, used)
    ensures Wary(c, dev, x, a, used)
  {
    if a.Use? && Answered(c, dev, x, a) {
      var o, s := UseOutcome(c, dev, x, a), SignedSession(x.session, a.entropy);
      ActSound(c, dev, x, a, used);
      var sendings :| OnlyReplays(c, dev, a.call, o.last.value, s, a.authValue, o.state.tpm.log, |o.state.tpm.log|,
                                  sendings, used);
      ReplaysAreTrustworthy(c, dev, a.call, o.last.value, s, a.authValue, o.state.tpm.log, |o.state.tpm.log|, sendings,
                            used);
      assert Doubted(c, dev, x, a, SignedOf(sendings), used);
    }
  }

  ghost predicate ReplayWaryRun<D>(c: Crypto, dev: Device<D>, x: Ends<D>, actions: seq<Action>, used: set<bytes>)
    decreases |actions|
  {
    actions == [] ||
    (&& ReplayWary(c, dev, x, actions[0], used)
     && ReplayWaryRun(c, dev, Act(c, dev, x, actions[0]), actions[1..], used + DrawnByAction(actions[0])))
  }

  lemma {:induction false} ReplayWaryRunIsWary<D(!new)>(c: Crypto, dev: Device<D>, x: Ends<D>, actions: seq<Action>,
                                                        used: set<bytes>)
    requires IsHash(x.session.alg) && Spent(x.tpm.log, x.session.nonceTpm) && Sound(c, dev, x.tpm, used)
    requires FreshRun(actions, used) && ReplayWaryRun(c, dev, x, actions, used)
    ensures WaryRun(c, dev, x, actions, used)
    decreases |actions|
  {
    if actions != [] {
      ReplayWaryIsWary(c, dev, x, actions[0], used);
      SpentActs(c, dev, x, actions[0], used);
      ReplayWaryRunIsWary(c, dev, Act(c, dev, x, actions[0]), actions[1..], used + DrawnByAction(actions[0]));
    }
  }

  ghost predicate ReplayCarefulRun<D>(c: Crypto, dev: Device<D>, x: Ends<D>, actions: seq<Action>, used: set<bytes>)
    decreases |actions|
  {
    actions == [] ||
    (&& ReplayGuarded(c, dev, x, actions[0], used)
     && var x', used' := Act(c, dev, x, actions[0]), used + DrawnByAction(actions[0]);
        if Unanswered(c, dev, x, actions[0]) then ReplayWaryRun(c, dev, x', actions[1..], used')
        else ReplayCarefulRun(c, dev, x', actions[1..], used'))
  }

  /** The same to the end of every run on a transport that only replays. */
  lemma {:induction false} ReplayToTheEnd<D(!new)>(c: Crypto, dev: Device<D>, x: Ends<D>, actions: seq<Action>,
                                                   used: set<bytes>)
    requires InStep(x.session, x.tpm) && Sound(c, dev, x.tpm, used)
    requires FreshRun(actions, used) && ReplayCarefulRun(c, dev, x, actions, used)
    ensures InStepOrSilent(c, dev, x, actions)
    decreases |actions|
  {
    if actions != [] {
      var x', used' := Act(c, dev, x, actions[0]), used + DrawnByAction(actions[0]);
      if Unanswered(c, dev, x, actions[0]) {
        ReplayGuardedIsGuarded(c, dev, x, actions[0], used);
        UnansweredIsSpent(c, dev, x, actions[0], used);
        ReplayWaryRunIsWary(c, dev, x', actions[1..], used');
        SpentRun(c, dev, x', actions[1..], used');
      } else {
        ReplayKeepsStep(c, dev, x, actions[0], used);
        ReplayToTheEnd(c, dev, x', actions[1..], used');
      }
    }
  }
}
