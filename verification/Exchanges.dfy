/** What the dispatcher guarantees against any transport at all. */
module Exchanges {
  import opened Basics
  import opened Constants
  import opened Marshal
  import opened Codecs
  import opened CryptoCore
  import opened Sessions
  import opened ResponseCodes
  import opened Dispatcher
  import opened Frames

  // ---------- one reply ----------

  /** A reply is believed under a session exactly when it can be taken apart
      and, if it carries the sessions tag, its HMAC is the expected one.  Only
      then, and only with that tag, does the session change, in its nonceTPM. */
  lemma BelievedExactly(c: Crypto, call: Call, resp: bytes, s: SessionState, authValue: bytes)
    requires IsHash(s.alg)
    ensures var (r, auth) := ParseResponse(c, call, resp, SessionView(s, authValue));
      var read := ReadReply(call.respHandles, resp);
      && (r.Success? <==>
            read.Parsed? && (read.value.tag == ST_SESSIONS ==> Genuine(c, call, read.value, s, authValue)))
      && (r.Success? ==>
            r.value == RawResponse(read.value.handles, read.value.params) && |r.value.handles| == call.respHandles)
      && auth == SessionView(
           if r.Success? && read.value.tag == ST_SESSIONS then s.(nonceTpm := read.value.auth.value.nonceTpm) else s,
           authValue)
  {
    if ReadReply(call.respHandles, resp).Parsed? {
      ReplyCanonical(call.respHandles, resp);
    }
  }

  /** The reply carries the HMAC that only a holder of the session key and the
      auth value makes for this nonceCaller, command code and these parameters. */
  predicate Genuine(c: Crypto, call: Call, reply: Reply, s: SessionState, authValue: bytes) {
    reply.auth.Some? &&
    reply.auth.value.hmac
    == ExpectedTag(c, s, c.hash(s.alg, RpInput(0, call.code, reply.params)), authValue, call.ObjectName(),
                   reply.auth.value.nonceTpm, reply.auth.value.attributes)
  }

  /** The HMAC check sits in the sessions branch only: among believed replies,
      the genuine ones are exactly those that carry the sessions tag. */
  lemma BelievedIsGenuineIff(c: Crypto, call: Call, resp: bytes, s: SessionState, authValue: bytes)
    requires IsHash(s.alg) && ParseResponse(c, call, resp, SessionView(s, authValue)).0.Success?
    ensures var reply := ReadReply(call.respHandles, resp).value;
      Genuine(c, call, reply, s, authValue) <==> reply.tag == ST_SESSIONS
  {
    BelievedExactly(c, call, resp, s, authValue);
    ReplyCanonical(call.respHandles, resp);
  }

  /** Any success reply without sessions is believed under any session, with
      whatever handles and parameters it carries, and it is not genuine. */
  lemma UnsignedReplyIsBelieved(c: Crypto, call: Call, s: SessionState, authValue: bytes,
                                handles: seq<u32>, params: bytes)
    requires |handles| == call.respHandles && ReplyFits(handles, params, None, [])
    ensures var resp := ReplyFrame(handles, params, None, []);
      && ParseResponse(c, call, resp, SessionView(s, authValue))
         == (Success(RawResponse(handles, params)), SessionView(s, authValue))
      && !Genuine(c, call, ReadReply(call.respHandles, resp).value, s, authValue)
  {
    ReplyRoundTrip(handles, params, None, []);
  }

  /** Every error exit leaves every field of the session as it was, and so does
      every reply to a command that no session signed. */
  lemma FailureChangesNothing(c: Crypto, call: Call, resp: bytes, auth: AuthView)
    requires ParseResponse(c, call, resp, auth).0.Failure? || !auth.SessionView?
    ensures ParseResponse(c, call, resp, auth).1 == auth
  {
  }

  // ---------- the retry loop ----------

  /** The transport after n transmissions of the frame. */
  ghost function StateAfter<S>(step: Step<S>, state: S, frame: bytes, n: nat): S {
    if n == 0 then state else step(StateAfter(step, state, frame, n - 1), frame).0
  }

  /** What transmission i brings back. */
  ghost function ReplyAt<S>(step: Step<S>, state: S, frame: bytes, i: nat): Result<bytes> {
    step(StateAfter(step, state, frame, i), frame).1
  }

  /** Transmission i arrives and asks to resubmit, changing no authorization. */
  ghost predicate AsksAgain<S>(step: Step<S>, judge: Judge, state: S, frame: bytes, auth: AuthView, i: nat) {
    var reply := ReplyAt(step, state, frame, i);
    reply.Success? && judge(reply.value, auth).again && judge(reply.value, auth).auth == auth
  }

  function Copies(frame: bytes, n: nat): seq<bytes> {
    seq(n, i => frame)
  }

  /** With exactly k leading replies that ask to resubmit, min(k,12)+1 copies
      of the one frame go out, and the last reply alone decides. */
  lemma RetriesExactly<S>(step: Step<S>, judge: Judge, state: S, frame: bytes, auth: AuthView, k: nat)
    requires forall i | 0 <= i < k :: AsksAgain(step, judge, state, frame, auth, i)
    requires ReplyAt(step, state, frame, k).Success? ==> !judge(ReplyAt(step, state, frame, k).value, auth).again
    ensures var last := if k < 12 then k else 12;
      var reply := ReplyAt(step, state, frame, last);
      var o := Exchange(step, judge, state, frame, auth, 0, []);
      && o.sent == Copies(frame, last + 1)
      && o.state == StateAfter(step, state, frame, last + 1)
      && o.last == reply
      && o.result == (if reply.Failure? then Failure(reply.error) else judge(reply.value, auth).result)
      && o.auth == (if reply.Failure? then auth else judge(reply.value, auth).auth)
  {
    var last := if k < 12 then k else 12;
    RetriesFrom(step, judge, state, frame, auth, last, 0);
  }

  lemma {:induction false} RetriesFrom<S>(step: Step<S>, judge: Judge, state: S, frame: bytes, auth: AuthView,
                                          last: nat, i: nat)
    requires i <= last <= 12
    requires forall j | 0 <= j < last :: AsksAgain(step, judge, state, frame, auth, j)
    requires last == 12 || ReplyAt(step, state, frame, last).Failure?
          || !judge(ReplyAt(step, state, frame, last).value, auth).again
    ensures var reply := ReplyAt(step, state, frame, last);
      Exchange(step, judge, StateAfter(step, state, frame, i), frame, auth, i, Copies(frame, i))
      == Outcome(StateAfter(step, state, frame, last + 1),
                 if reply.Failure? then auth else judge(reply.value, auth).auth,
                 if reply.Failure? then Failure(reply.error) else judge(reply.value, auth).result,
                 Copies(frame, last + 1), reply)
    decreases last - i
  {
    assert Copies(frame, i) + [frame] == Copies(frame, i + 1);
    if i < last {
      assert AsksAgain(step, judge, state, frame, auth, i);
      ExchangeAgain(step, judge, StateAfter(step, state, frame, i), frame, auth, i, Copies(frame, i),
                    StateAfter(step, state, frame, i + 1), auth, Copies(frame, i + 1));
      RetriesFrom(step, judge, state, frame, auth, last, i + 1);
    }
  }

  /** Resubmission changes no authorization. */
  ghost predicate PatientJudge(judge: Judge, auth: AuthView) {
    forall resp | judge(resp, auth).again :: judge(resp, auth).auth == auth
  }

  /** What every transmission of the frame keeps true of the transport, the
      whole exchange keeps true. */
  lemma {:induction false} ExchangeKeeps<S(!new)>(
    step: Step<S>, judge: Judge, state: S, frame: bytes, auth: AuthView, attempt: nat, sent: seq<bytes>,
    inv: S -> bool)
    requires attempt <= MAX_TRANSIENT_RETRIES && PatientJudge(judge, auth)
    requires inv(state) && forall x | inv(x) :: inv(step(x, frame).0)
    ensures inv(Exchange(step, judge, state, frame, auth, attempt, sent).state)
    decreases MAX_TRANSIENT_RETRIES - attempt
  {
    var (next, reply) := step(state, frame);
    if reply.Success? && judge(reply.value, auth).again && attempt < MAX_TRANSIENT_RETRIES {
      ExchangeKeeps(step, judge, next, frame, auth, attempt + 1, sent + [frame], inv);
      ExchangeAgain(step, judge, state, frame, auth, attempt, sent, next, auth, sent + [frame]);
    }
  }

  /** The result of an exchange is the verdict on its last reply alone. */
  lemma {:induction false} LastReplyDecides<S>(
    step: Step<S>, judge: Judge, state: S, frame: bytes, auth: AuthView, attempt: nat, sent: seq<bytes>)
    requires attempt <= MAX_TRANSIENT_RETRIES && PatientJudge(judge, auth)
    ensures var o := Exchange(step, judge, state, frame, auth, attempt, sent);
      if o.last.Success?
      then o.result == judge(o.last.value, auth).result && o.auth == judge(o.last.value, auth).auth
      else o.result == Failure(o.last.error) && o.auth == auth
    decreases MAX_TRANSIENT_RETRIES - attempt
  {
    var (next, reply) := step(state, frame);
    if reply.Success? && judge(reply.value, auth).again && attempt < MAX_TRANSIENT_RETRIES {
      LastReplyDecides(step, judge, next, frame, auth, attempt + 1, sent + [frame]);
      ExchangeAgain(step, judge, state, frame, auth, attempt, sent, next, auth, sent + [frame]);
    }
  }

  /** Whatever the transport does, a call that succeeds brings back exactly the
      handles it asked for, so the first of them can be taken. */
  lemma HandlesAsAsked<S>(c: Crypto, step: Step<S>, state: S, call: Call, auth: AuthView, entropy: bytes)
    ensures var r := RunCall(c, step, state, call, auth, entropy).result;
      r.Success? ==> |r.value.handles| == call.respHandles
  {
    var authorized := Authorize(c, call, auth, entropy);
    if authorized.Success? {
      var (view, area) := authorized.value;
      JudgingIsPatient(c, call, view);
      LastReplyDecides(step, Judging(c, call), state, Frame(call, area), view, 0, []);
      var o := RunCall(c, step, state, call, auth, entropy);
      if o.result.Success? {
        BelievedReply(c, call, o.last.value, view);
      }
    }
  }

  lemma BelievedReply(c: Crypto, call: Call, resp: bytes, auth: AuthView)
    requires ParseResponse(c, call, resp, auth).0.Success?
    ensures |ParseResponse(c, call, resp, auth).0.value.handles| == call.respHandles
  {
    ReplyCanonical(call.respHandles, resp);
  }

  lemma JudgingIsPatient(c: Crypto, call: Call, auth: AuthView)
    ensures PatientJudge(Judging(c, call), auth)
  {
    forall resp | Judging(c, call)(resp, auth).again ensures Judging(c, call)(resp, auth).auth == auth {
      AgainExactly(c, call, resp, auth);
    }
  }

  /** A reply asks to resubmit exactly when it is one of the three warnings, and
      then it leaves the authorization alone. */
  lemma AgainExactly(c: Crypto, call: Call, resp: bytes, auth: AuthView)
    ensures var v := Judged(c, call, resp, auth);
      && (v.again ==> v.auth == auth)
      && (v.again <==> ReadReplyHeader(resp).Parsed? && IsRetryCode(ReadReplyHeader(resp).value.rc))
  {
    var r := ParseResponse(c, call, resp, auth).0;
    var header := ReadReplyHeader(resp);
    if header.Parsed? {
      var rc := header.value.rc;
      TransientExactly(rc);
      if rc != 0 {
        assert r == Failure(Error.Code(rc));
      } else {
        NotATpmError(c, call, resp, auth);
      }
    }
  }

  lemma NotATpmError(c: Crypto, call: Call, resp: bytes, auth: AuthView)
    requires var header := ReadReplyHeader(resp); header.Parsed? ==> header.value.rc == 0
    ensures var r := ParseResponse(c, call, resp, auth).0; r.Failure? ==> !r.error.Code?
  {
    UnframingNoTpmError(call.respHandles, resp);
  }

  lemma UnframingNoTpmError(respHandles: nat, resp: bytes)
    requires var header := ReadReplyHeader(resp); header.Parsed? ==> header.value.rc == 0
    ensures var p := ReadReply(respHandles, resp); p.Stuck? ==> !p.error.Code?
  {
    var header := ReadReplyHeader(resp);
    if header.Parsed? {
      HandlesNoTpmError(respHandles, header.rest);
    }
  }

  lemma {:induction false} HandlesNoTpmError(n: nat, s: bytes)
    ensures ReadMany(ReadU32, n, s).Stuck? ==> ReadMany(ReadU32, n, s).error == Malformed
  {
    if n > 0 && ReadU32(s).Parsed? {
      HandlesNoTpmError(n - 1, ReadU32(s).rest);
    }
  }

  // ---------- what the HMAC inputs determine ----------

  lemma CpInputDetermines(code: u32, names: seq<bytes>, params: bytes, code': u32, params': bytes)
    requires CpInput(code, names, params) == RpInput(0, code', params')
    ensures code == 0
  {
    assert CpInput(code, names, params)[..4] == U32Bytes(code);
    assert RpInput(0, code', params')[..4] == U32Bytes(0);
    U32BytesInjective(code, 0);
  }

  /** A Name as a TPM has them (TPM 2.0 Library, Part 1, section 16): a hash
      algorithm and a digest of its size, or a handle, which does not begin with
      the identifier of a hash. */
  predicate IsName(b: bytes) {
    if |b| >= 2 && IsHash(U16Value(b[..2])) then |b| == 2 + SizeOf(U16Value(b[..2])) else |b| == 4
  }

  predicate AreNames(names: seq<bytes>) {
    forall i | 0 <= i < |names| :: IsName(names[i])
  }

  /** A Name says itself where it ends. */
  lemma NameEnds(a: bytes, b: bytes, p: bytes, q: bytes)
    requires IsName(a) && IsName(b) && a + p == b + q
    ensures a == b && p == q
  {
    assert |a| >= 2 && |b| >= 2;
    assert a[..2] == (a + p)[..2] == (b + q)[..2] == b[..2];
    assert a == (a + p)[..|a|] && b == (b + q)[..|b|];
    assert p == (a + p)[|a|..] && q == (b + q)[|b|..];
  }

  lemma {:induction false} NamesDetermine(xs: seq<bytes>, ys: seq<bytes>, p: bytes, q: bytes)
    requires |xs| == |ys| && AreNames(xs) && AreNames(ys)
    requires Flatten(xs) + p == Flatten(ys) + q
    ensures xs == ys && p == q
  {
    if xs != [] {
      FlattenHead(xs, p);
      FlattenHead(ys, q);
      NameEnds(xs[0], ys[0], Flatten(xs[1..]) + p, Flatten(ys[1..]) + q);
      NamesDetermine(xs[1..], ys[1..], p, q);
      assert xs == [xs[0]] + xs[1..] && ys == [ys[0]] + ys[1..];
    } else {
      assert Flatten(xs) + p == p && Flatten(ys) + q == q;
    }
  }

  lemma FlattenHead(names: seq<bytes>, p: bytes)
    requires names != []
    ensures Flatten(names) + p == names[0] + (Flatten(names[1..]) + p)
  {
    FlattenCons(names[0], names[1..]);
    assert names == [names[0]] + names[1..];
  }

  /** The command hash input determines the code, and with as many Names on both
      sides every Name and the parameters too. */
  lemma CpInputDeterminesAll(code: u32, names: seq<bytes>, params: bytes,
                             code': u32, names': seq<bytes>, params': bytes)
    requires CpInput(code, names, params) == CpInput(code', names', params')
    requires AreNames(names) && AreNames(names') && (code == code' ==> |names| == |names'|)
    ensures code == code' && names == names' && params == params'
  {
    var m, m' := CpInput(code, names, params), CpInput(code', names', params');
    assert m[..4] == U32Bytes(code) && m'[..4] == U32Bytes(code');
    U32BytesInjective(code, code');
    assert m[4..] == Flatten(names) + params && m'[4..] == Flatten(names') + params';
    NamesDetermine(names, names', params, params');
  }

  /** Byte strings that are no Names can be cut in another place: then one hash
      input stands for two commands. */
  lemma OtherNamesAreAmbiguous(code: u32, a: bytes, b: byte, params: bytes)
    ensures CpInput(code, [a], [b] + params) == CpInput(code, [a + [b]], params)
    ensures [a] != [a + [b]]
  {
    Flatten6(a, [], [], [], [], []);
    Flatten6(a + [b], [], [], [], [], []);
    assert a + ([b] + params) == (a + [b]) + params;
  }

  lemma RpInputDetermines(code: u32, params: bytes, code': u32, params': bytes)
    requires RpInput(0, code, params) == RpInput(0, code', params')
    ensures code == code' && params == params'
  {
    var m, m' := RpInput(0, code, params), RpInput(0, code', params');
    assert m[4..8] == U32Bytes(code) && m'[4..8] == U32Bytes(code');
    assert m[8..] == params && m'[8..] == params';
    U32BytesInjective(code, code');
  }

  /** No signed command is also a signed reply: unless the hash collides on
      them, the two HMAC inputs differ, for every command code but zero. */
  lemma CommandsAreNotReplies(c: Crypto, alg: u16, code: u32, names: seq<bytes>, params: bytes,
                              newer: bytes, older: bytes, a: byte,
                              code': u32, params': bytes, newer': bytes, older': bytes, a': byte)
    requires code != 0
    requires c.hash(alg, CpInput(code, names, params)) == c.hash(alg, RpInput(0, code', params'))
         ==> CpInput(code, names, params) == RpInput(0, code', params')
    ensures AuthMessage(c.hash(alg, CpInput(code, names, params)), newer, older, a)
         != AuthMessage(c.hash(alg, RpInput(0, code', params')), newer', older', a')
  {
    var p, p' := c.hash(alg, CpInput(code, names, params)), c.hash(alg, RpInput(0, code', params'));
    if AuthMessage(p, newer, older, a) == AuthMessage(p', newer', older', a') {
      assert AuthMessage(p, newer, older, a)[..|p|] == p;
      assert AuthMessage(p', newer', older', a')[..|p'|] == p';
      CpInputDetermines(code, names, params, code', params');
      assert false;
    }
  }
}
