/**
 The other side of the wire: a reference parser for request frames that knows
 only how many handles each command code carries, and a reference encoder for
 replies.  Both are shown inverse to what the dispatcher does.
 */
module Frames {
  import opened Basics
  import opened Constants
  import opened Marshal
  import opened Codecs
  import opened Structures
  import opened Sessions
  import opened Dispatcher

  const U32: Codec<u32> := Codec(U32Bytes, (v: u32) => true, ReadU32)

  lemma U32Exact()
    ensures Exact(U32)
  {
    forall v, post ensures Inverts(U32, v, post) {
      ReadU32Inverts(v, post);
    }
    forall s ensures Canonical(U32, s) {
      if ReadU32(s).Parsed? {
        ReadU32Canonical(s);
      }
    }
  }

  lemma ReadHandlesInverts(handles: seq<u32>, post: bytes)
    ensures ReadMany(ReadU32, |handles|, HandleBytes(handles) + post) == Parsed(handles, post)
  {
    U32Exact();
    ReadManyInverts(U32, handles, post);
  }

  lemma ReadHandlesCanonical(n: nat, s: bytes)
    requires ReadMany(ReadU32, n, s).Parsed?
    ensures var p := ReadMany(ReadU32, n, s);
      |p.value| == n && s == HandleBytes(p.value) + p.rest
  {
    U32Exact();
    ReadManyCanonical(U32, n, s);
  }

  lemma {:induction false} HandleBytesLength(handles: seq<u32>)
    ensures |HandleBytes(handles)| == 4 * |handles|
  {
    if handles != [] {
      HandleBytesLength(handles[1..]);
      assert HandleBytes(handles) == U32Bytes(handles[0]) + HandleBytes(handles[1..]);
    }
  }

  // ---------- authorization entries ----------

  function ReadEntry(s: bytes): Parsed<AuthCommand> {
    var (handle, s) :- ReadU32(s);
    var (r, s) :- ReadAuthResponse(s);
    Parsed(AuthCommand(handle, r.nonceTpm, r.attributes, r.hmac), s)
  }

  const RESPONSE_ENTRY: Codec<AuthResponse> :=
    Codec(ResponseEntryBytes,
          (a: AuthResponse) => |a.nonceTpm| <= U16_MAX && |a.hmac| <= U16_MAX,
          ReadAuthResponse)

  const ENTRY: Codec<AuthCommand> :=
    Codec(EntryBytes,
          (e: AuthCommand) => |e.nonceCaller| <= U16_MAX && |e.hmac| <= U16_MAX,
          ReadEntry)

  lemma EntryShape(a: bytes, b: bytes, d: bytes, post: bytes)
    ensures (a + (b + d)) + post == a + (b + (d + post))
  {
  }

  lemma ReadAuthResponseInverts(a: AuthResponse, post: bytes)
    requires |a.nonceTpm| <= U16_MAX && |a.hmac| <= U16_MAX
    ensures ReadAuthResponse(ResponseEntryBytes(a) + post) == Parsed(a, post)
  {
    var t := BufferBytes(a.hmac) + post;
    EntryShape(BufferBytes(a.nonceTpm), [a.attributes], BufferBytes(a.hmac), post);
    ReadTpm2bInverts(a.nonceTpm, [a.attributes] + t);
    ReadBytesInverts([a.attributes], t);
    ReadTpm2bInverts(a.hmac, post);
  }

  lemma ReadAuthResponseCanonical(s: bytes)
    requires ReadAuthResponse(s).Parsed?
    ensures var (a, rest) := ReadAuthResponse(s).Extract();
      |a.nonceTpm| <= U16_MAX && |a.hmac| <= U16_MAX && s == ResponseEntryBytes(a) + rest
  {
    var (a, rest) := ReadAuthResponse(s).Extract();
    var t1 := ReadTpm2b(s).rest;
    var t2 := ReadU8(t1).rest;
    assert s == BufferBytes(a.nonceTpm) + t1 by { ReadTpm2bCanonical(s); }
    assert t1 == [a.attributes] + t2;
    assert t2 == BufferBytes(a.hmac) + rest by { ReadTpm2bCanonical(t2); }
    EntryShape(BufferBytes(a.nonceTpm), [a.attributes], BufferBytes(a.hmac), rest);
  }

  lemma ResponseEntryExact()
    ensures Exact(RESPONSE_ENTRY)
  {
    forall a, post ensures Inverts(RESPONSE_ENTRY, a, post) {
      if |a.nonceTpm| <= U16_MAX && |a.hmac| <= U16_MAX {
        ReadAuthResponseInverts(a, post);
      }
    }
    forall s ensures Canonical(RESPONSE_ENTRY, s) {
      if ReadAuthResponse(s).Parsed? {
        ReadAuthResponseCanonical(s);
      }
    }
  }

  lemma EntryExact()
    ensures Exact(ENTRY)
  {
    ResponseEntryExact();
    forall e, post ensures Inverts(ENTRY, e, post) {
      var a := AuthResponse(e.nonceCaller, e.attributes, e.hmac);
      assert EntryBytes(e) + post == U32Bytes(e.handle) + (ResponseEntryBytes(a) + post);
      ReadU32Inverts(e.handle, ResponseEntryBytes(a) + post);
      assert Inverts(RESPONSE_ENTRY, a, post);
    }
    forall s ensures Canonical(ENTRY, s) {
      if ReadEntry(s).Parsed? {
        ReadU32Canonical(s);
        assert Canonical(RESPONSE_ENTRY, ReadU32(s).rest);
      }
    }
  }

  // ---------- request frames ----------

  datatype Command = Command(code: u32, handles: seq<u32>, auth: Option<AuthCommand>, params: bytes) {
    predicate Fits() {
      && (auth.Some? ==> |auth.value.nonceCaller| <= U16_MAX && |auth.value.hmac| <= U16_MAX)
      && 10 + |CommandBody(this)| < TWO_32
    }
  }

  function AreaBytes(auth: Option<AuthCommand>): Option<bytes> {
    if auth.Some? then Some(EntryBytes(auth.value)) else None
  }

  function AsCall(cmd: Command): Call {
    Call(cmd.code, cmd.handles, [], cmd.params, 0)
  }

  function CommandBody(cmd: Command): bytes {
    Body(AsCall(cmd), AreaBytes(cmd.auth))
  }

  function CommandFrame(cmd: Command): bytes {
    Frame(AsCall(cmd), AreaBytes(cmd.auth))
  }

  /** An authorization area holding exactly one entry. */
  function ReadArea(s: bytes): Parsed<AuthCommand> {
    var (n, s) :- ReadU32(s);
    var (area, s) :- ReadBytes(n, s);
    var (entry, unused) :- ReadEntry(area);
    if unused == [] then Parsed(entry, s) else Stuck(Malformed, s)
  }

  function ReadCommandBody(tag: u16, code: u32, handleCount: nat, s: bytes): Parsed<Command> {
    var (handles, s) :- ReadMany(ReadU32, handleCount, s);
    if tag == ST_SESSIONS then
      var (entry, s) :- ReadArea(s);
      Parsed(Command(code, handles, Some(entry), s), [])
    else if tag == ST_NO_SESSIONS then Parsed(Command(code, handles, None, s), [])
    else Stuck(Malformed, s)
  }

  function ReadCommand(handleCount: u32 -> nat, frame: bytes): Parsed<Command> {
    var (header, s) :- ReadReplyHeader(frame);
    if header.size != |frame| then Stuck(Malformed, s)
    else ReadCommandBody(header.tag, header.rc, handleCount(header.rc), s)
  }

  lemma ReadHeaderInverts(tag: u16, size: u32, code: u32, post: bytes)
    ensures ReadReplyHeader(U16Bytes(tag) + (U32Bytes(size) + (U32Bytes(code) + post)))
         == Parsed(ReplyHeader(tag, size, code), post)
  {
    ReadU16Inverts(tag, U32Bytes(size) + (U32Bytes(code) + post));
    ReadU32Inverts(size, U32Bytes(code) + post);
    ReadU32Inverts(code, post);
  }

  lemma ReadHeaderCanonical(s: bytes)
    requires ReadReplyHeader(s).Parsed?
    ensures var (h, rest) := ReadReplyHeader(s).Extract();
      s == U16Bytes(h.tag) + (U32Bytes(h.size) + (U32Bytes(h.rc) + rest))
  {
    var t1 := ReadU16(s).rest;
    var t2 := ReadU32(t1).rest;
    ReadU16Canonical(s);
    ReadU32Canonical(t1);
    ReadU32Canonical(t2);
  }

  lemma ReadAreaInverts(e: AuthCommand, post: bytes)
    requires |e.nonceCaller| <= U16_MAX && |e.hmac| <= U16_MAX
    ensures ReadArea(U32Bytes(LowU32(|EntryBytes(e)|)) + EntryBytes(e) + post) == Parsed(e, post)
  {
    var area := EntryBytes(e);
    SizedShape(|area|, area, post);
    ReadU32Inverts(|area|, area + post);
    ReadBytesInverts(area, post);
    EntryExact();
    assert Inverts(ENTRY, e, []);
    assert area + [] == area;
  }

  /** A length that was read back is the length of what it covers. */
  lemma SizedShape(n: u32, data: bytes, tail: bytes)
    requires n == |data|
    ensures U32Bytes(n) + (data + tail) == U32Bytes(LowU32(|data|)) + data + tail
  {
    assert LowU32(n) == n;
  }

  lemma ReadAreaCanonical(s: bytes)
    requires ReadArea(s).Parsed?
    ensures var p := ReadArea(s);
      && |p.value.nonceCaller| <= U16_MAX && |p.value.hmac| <= U16_MAX
      && s == U32Bytes(LowU32(|EntryBytes(p.value)|)) + EntryBytes(p.value) + p.rest
  {
    var n, t := ReadU32(s).value, ReadU32(s).rest;
    var area, rest, entry := t[..n], t[n..], ReadArea(s).value;
    assert s == U32Bytes(n) + (area + rest) by { ReadU32Canonical(s); }
    EntryExact();
    assert Canonical(ENTRY, area);
    assert area == EntryBytes(entry) + [] == EntryBytes(entry);
    SizedShape(n, area, rest);
  }

  lemma ReadCommandBodyInverts(cmd: Command)
    requires cmd.Fits()
    ensures ReadCommandBody(if cmd.auth.Some? then ST_SESSIONS else ST_NO_SESSIONS, cmd.code,
                            |cmd.handles|, CommandBody(cmd)) == Parsed(cmd, [])
  {
    if cmd.auth.Some? {
      var area := EntryBytes(cmd.auth.value);
      var t := U32Bytes(LowU32(|area|)) + area + cmd.params;
      assert CommandBody(cmd) == HandleBytes(cmd.handles) + t;
      ReadHandlesInverts(cmd.handles, t);
      ReadAreaInverts(cmd.auth.value, cmd.params);
    } else {
      assert CommandBody(cmd) == HandleBytes(cmd.handles) + cmd.params;
      ReadHandlesInverts(cmd.handles, cmd.params);
    }
  }

  lemma ReadCommandBodyCanonical(tag: u16, code: u32, n: nat, s: bytes)
    requires ReadCommandBody(tag, code, n, s).Parsed?
    ensures var cmd := ReadCommandBody(tag, code, n, s).value;
      && s == CommandBody(cmd)
      && cmd.code == code && |cmd.handles| == n
      && tag == (if cmd.auth.Some? then ST_SESSIONS else ST_NO_SESSIONS)
      && (cmd.auth.Some? ==> |cmd.auth.value.nonceCaller| <= U16_MAX && |cmd.auth.value.hmac| <= U16_MAX)
  {
    var cmd := ReadCommandBody(tag, code, n, s).value;
    ReadHandlesCanonical(n, s);
    var t := ReadMany(ReadU32, n, s).rest;
    assert s == HandleBytes(cmd.handles) + t;
    if tag == ST_SESSIONS {
      ReadAreaCanonical(t);
      var area := EntryBytes(cmd.auth.value);
      assert s == HandleBytes(cmd.handles) + (U32Bytes(LowU32(|area|)) + area) + cmd.params;
    } else {
      assert s == HandleBytes(cmd.handles) + [] + cmd.params;
    }
  }

  lemma FrameShape(cmd: Command)
    requires cmd.Fits()
    ensures |CommandFrame(cmd)| == 10 + |CommandBody(cmd)|
    ensures CommandFrame(cmd) == U16Bytes(if cmd.auth.Some? then ST_SESSIONS else ST_NO_SESSIONS)
      + (U32Bytes(|CommandFrame(cmd)|) + (U32Bytes(cmd.code) + CommandBody(cmd)))
  {
    var n := |CommandBody(cmd)|;
    assert LowU32(10 + LowU32(n)) == 10 + n;
  }

  /** The TPM reads back exactly the command the dispatcher framed, both size
      fields covering exactly the bytes they claim to. */
  lemma CommandRoundTrip(handleCount: u32 -> nat, cmd: Command)
    requires cmd.Fits() && |cmd.handles| == handleCount(cmd.code)
    ensures ReadCommand(handleCount, CommandFrame(cmd)) == Parsed(cmd, [])
  {
    FrameShape(cmd);
    var tag := if cmd.auth.Some? then ST_SESSIONS else ST_NO_SESSIONS;
    ReadHeaderInverts(tag, |CommandFrame(cmd)|, cmd.code, CommandBody(cmd));
    ReadCommandBodyInverts(cmd);
  }

  /** Every frame of the dispatcher that is not too long is read back: its
      handles, its authorization entry and its parameters. */
  lemma CallRoundTrip(handleCount: u32 -> nat, call: Call, auth: Option<AuthCommand>)
    requires |call.handles| == handleCount(call.code)
    requires auth.Some? ==> |auth.value.nonceCaller| <= U16_MAX && |auth.value.hmac| <= U16_MAX
    requires 14 + 4 * |call.handles| + (if auth.Some? then |EntryBytes(auth.value)| else 0) + |call.params| < TWO_32
    ensures ReadCommand(handleCount, Frame(call, AreaBytes(auth)))
         == Parsed(Command(call.code, call.handles, auth, call.params), [])
  {
    var cmd := Command(call.code, call.handles, auth, call.params);
    HandleBytesLength(call.handles);
    assert Frame(call, AreaBytes(auth)) == CommandFrame(cmd);
    CommandRoundTrip(handleCount, cmd);
  }

  /** Whatever the TPM reads was framed that way, so frames are unambiguous. */
  lemma CommandCanonical(handleCount: u32 -> nat, frame: bytes)
    requires ReadCommand(handleCount, frame).Parsed?
    ensures var cmd := ReadCommand(handleCount, frame).value;
      frame == CommandFrame(cmd) && cmd.Fits() && |cmd.handles| == handleCount(cmd.code)
  {
    var (h, s) := ReadReplyHeader(frame).Extract();
    ReadHeaderCanonical(frame);
    ReadCommandBodyCanonical(h.tag, h.rc, handleCount(h.rc), s);
    var cmd := ReadCommand(handleCount, frame).value;
    assert |frame| == 10 + |CommandBody(cmd)|;
    FrameShape(cmd);
  }

  // ---------- replies ----------

  /** A successful reply: the parameters sized and followed by authorization
      entries when there are any. */
  function ReplyBody(handles: seq<u32>, params: bytes, auth: Option<AuthResponse>, extra: bytes): bytes {
    HandleBytes(handles) +
    if auth.Some? then U32Bytes(LowU32(|params|)) + (params + (ResponseEntryBytes(auth.value) + extra))
    else params
  }

  function ReplyFrame(handles: seq<u32>, params: bytes, auth: Option<AuthResponse>, extra: bytes): bytes {
    var body := ReplyBody(handles, params, auth, extra);
    U16Bytes(ReplyTag(auth)) + (U32Bytes(LowU32(10 + |body|)) + (U32Bytes(0) + body))
  }

  function ErrorFrame(rc: u32): bytes {
    U16Bytes(ST_NO_SESSIONS) + (U32Bytes(10) + (U32Bytes(rc) + []))
  }

  predicate ReplyFits(handles: seq<u32>, params: bytes, auth: Option<AuthResponse>, extra: bytes) {
    && 10 + |ReplyBody(handles, params, auth, extra)| < TWO_32
    && (auth.Some? ==> |auth.value.nonceTpm| <= U16_MAX && |auth.value.hmac| <= U16_MAX)
  }

  function ReplyTag(auth: Option<AuthResponse>): u16 {
    if auth.Some? then ST_SESSIONS else ST_NO_SESSIONS
  }

  lemma ReadAuthorizedInverts(params: bytes, a: AuthResponse, extra: bytes)
    requires |params| < TWO_32 && |a.nonceTpm| <= U16_MAX && |a.hmac| <= U16_MAX
    ensures ReadAuthorized(U32Bytes(LowU32(|params|)) + (params + (ResponseEntryBytes(a) + extra)))
         == Parsed((params, a), extra)
  {
    var t := ResponseEntryBytes(a) + extra;
    assert LowU32(|params|) == |params|;
    ReadU32Inverts(|params|, params + t);
    ReadBytesInverts(params, t);
    ResponseEntryExact();
    assert Inverts(RESPONSE_ENTRY, a, extra);
  }

  lemma ReadReplyBodyInverts(handles: seq<u32>, params: bytes, auth: Option<AuthResponse>, extra: bytes)
    requires ReplyFits(handles, params, auth, extra)
    ensures ReadReplyBody(ReplyTag(auth), |handles|, ReplyBody(handles, params, auth, extra)).ToResult()
         == Success(Reply(ReplyTag(auth), handles, params, auth))
  {
    if auth.Some? {
      var t := U32Bytes(LowU32(|params|)) + (params + (ResponseEntryBytes(auth.value) + extra));
      assert |params| <= |t| <= |ReplyBody(handles, params, auth, extra)|;
      ReadHandlesInverts(handles, t);
      ReadAuthorizedInverts(params, auth.value, extra);
    } else {
      ReadHandlesInverts(handles, params);
    }
  }

  lemma ReadFramed(respHandles: nat, tag: u16, body: bytes)
    requires 10 + |body| < TWO_32
    ensures ReadReply(respHandles, U16Bytes(tag) + (U32Bytes(10 + |body|) + (U32Bytes(0) + body)))
         == ReadReplyBody(tag, respHandles, body)
  {
    ReadHeaderInverts(tag, 10 + |body|, 0, body);
  }

  /** The dispatcher reads exactly the handles, parameters and first
      authorization entry that a well-formed reply carries; what follows that
      entry makes no difference. */
  lemma ReplyRoundTrip(handles: seq<u32>, params: bytes, auth: Option<AuthResponse>, extra: bytes)
    requires ReplyFits(handles, params, auth, extra)
    ensures ReadReply(|handles|, ReplyFrame(handles, params, auth, extra)).ToResult()
         == Success(Reply(ReplyTag(auth), handles, params, auth))
  {
    ReadReplyFrame(|handles|, handles, params, auth, extra);
    ReadReplyBodyInverts(handles, params, auth, extra);
  }

  lemma ReadReplyFrame(respHandles: nat, handles: seq<u32>, params: bytes, auth: Option<AuthResponse>, extra: bytes)
    requires 10 + |ReplyBody(handles, params, auth, extra)| < TWO_32
    ensures ReadReply(respHandles, ReplyFrame(handles, params, auth, extra))
         == ReadReplyBody(ReplyTag(auth), respHandles, ReplyBody(handles, params, auth, extra))
  {
    ReplyFrameShape(handles, params, auth, extra);
    ReadFramed(respHandles, ReplyTag(auth), ReplyBody(handles, params, auth, extra));
  }

  lemma ReplyFrameShape(handles: seq<u32>, params: bytes, auth: Option<AuthResponse>, extra: bytes)
    requires 10 + |ReplyBody(handles, params, auth, extra)| < TWO_32
    ensures var body := ReplyBody(handles, params, auth, extra);
      ReplyFrame(handles, params, auth, extra)
      == U16Bytes(ReplyTag(auth)) + (U32Bytes(10 + |body|) + (U32Bytes(0) + body))
  {
  }

  /** A reply is taken apart exactly when it is such a frame (any tag other than
      the sessions one counts as "no sessions"), and then it yields as many
      handles as were asked for. */
  lemma ReplyCanonical(respHandles: nat, resp: bytes)
    requires ReadReply(respHandles, resp).Parsed?
    ensures var (reply, rest) := ReadReply(respHandles, resp).Extract();
      && |reply.handles| == respHandles
      && (reply.auth.Some? <==> reply.tag == ST_SESSIONS)
      && resp == U16Bytes(reply.tag) + (U32Bytes(LowU32(|resp|)) + (U32Bytes(0)
           + ReplyBody(reply.handles, reply.params, reply.auth, rest)))
  {
    BodyIsRead(respHandles, resp);
    var (h, s) := ReadReplyHeader(resp).Extract();
    assert resp == U16Bytes(h.tag) + (U32Bytes(LowU32(|resp|)) + (U32Bytes(0) + s)) by {
      ReadHeaderCanonical(resp);
    }
    ReadReplyBodyCanonical(h.tag, respHandles, s);
  }

  /** A reply that is taken apart has response code zero and its own length. */
  lemma BodyIsRead(respHandles: nat, resp: bytes)
    requires ReadReply(respHandles, resp).Parsed?
    ensures ReadReplyHeader(resp).Parsed?
    ensures var (h, s) := ReadReplyHeader(resp).Extract();
      && h.rc == 0 && h.size == LowU32(|resp|)
      && ReadReply(respHandles, resp) == ReadReplyBody(h.tag, respHandles, s)
  {
  }

  lemma ReadReplyBodyCanonical(tag: u16, respHandles: nat, s: bytes)
    requires ReadReplyBody(tag, respHandles, s).Parsed?
    ensures var (reply, rest) := ReadReplyBody(tag, respHandles, s).Extract();
      && |reply.handles| == respHandles && reply.tag == tag
      && (reply.auth.Some? <==> tag == ST_SESSIONS)
      && s == ReplyBody(reply.handles, reply.params, reply.auth, rest)
  {
    ReadHandlesCanonical(respHandles, s);
    if tag == ST_SESSIONS {
      ReadAuthorizedCanonical(ReadMany(ReadU32, respHandles, s).rest);
    }
  }

  lemma ReadAuthorizedCanonical(s: bytes)
    requires ReadAuthorized(s).Parsed?
    ensures var ((params, a), rest) := ReadAuthorized(s).Extract();
      s == U32Bytes(LowU32(|params|)) + (params + (ResponseEntryBytes(a) + rest))
  {
    var params, u := AuthorizedParts(s);
    ReadAuthResponseCanonical(u);
  }

  lemma AuthorizedParts(s: bytes) returns (params: bytes, u: bytes)
    requires ReadAuthorized(s).Parsed?
    ensures s == U32Bytes(LowU32(|params|)) + (params + u)
    ensures ReadAuthResponse(u) == Parsed(ReadAuthorized(s).value.1, ReadAuthorized(s).rest)
    ensures params == ReadAuthorized(s).value.0
  {
    var n, t := ReadU32(s).value, ReadU32(s).rest;
    params, u := t[..n], t[n..];
    assert s == U32Bytes(n) + t by { ReadU32Canonical(s); }
    LowIsLength(n, params);
    assert t == params + u;
  }

  lemma LowIsLength(n: u32, data: bytes)
    requires n == |data|
    ensures LowU32(|data|) == n
  {
  }

  lemma ErrorRoundTrip(respHandles: nat, rc: u32)
    requires rc != 0
    ensures ReadReply(respHandles, ErrorFrame(rc)).ToResult() == Failure(Error.Code(rc))
  {
    ReadHeaderInverts(ST_NO_SESSIONS, 10, rc, []);
  }

  // ---------- what the host reads off the wire ----------

  /** A successful parse of a TPM2B, a PCR selection list, a digest list or a
      response authorization entry gives the same value and leaves the same
      bytes, whatever is appended. */
  lemma ParsesAreLocal(s: bytes, more: bytes)
    ensures ReadTpm2b(s).Parsed? ==> ReadTpm2b(s + more) == Parsed(ReadTpm2b(s).value, ReadTpm2b(s).rest + more)
    ensures var p := SELECTION_LIST.read(s);
      p.Parsed? ==> SELECTION_LIST.read(s + more) == Parsed(p.value, p.rest + more)
    ensures var p := DIGEST_LIST.read(s);
      p.Parsed? ==> DIGEST_LIST.read(s + more) == Parsed(p.value, p.rest + more)
    ensures var p := ReadAuthResponse(s);
      p.Parsed? ==> ReadAuthResponse(s + more) == Parsed(p.value, p.rest + more)
  {
    if ReadTpm2b(s).Parsed? {
      Tpm2bExact();
      Local(TPM2B, s, more);
    }
    if SELECTION_LIST.read(s).Parsed? {
      SelectionListExact();
      Local(SELECTION_LIST, s, more);
    }
    if DIGEST_LIST.read(s).Parsed? {
      DigestListExact();
      Local(DIGEST_LIST, s, more);
    }
    if ReadAuthResponse(s).Parsed? {
      ResponseEntryExact();
      Local(RESPONSE_ENTRY, s, more);
    }
  }

  /** Every strict prefix of a valid encoding of one of these is rejected. */
  lemma PrefixesAreRejected(d: bytes, l: seq<PcrSelection>, ds: seq<bytes>, a: AuthResponse, k: nat)
    ensures TPM2B.fits(d) && k < |TPM2B.enc(d)| ==> ReadTpm2b(TPM2B.enc(d)[..k]).Stuck?
    ensures SELECTION_LIST.fits(l) && k < |SELECTION_LIST.enc(l)|
        ==> SELECTION_LIST.read(SELECTION_LIST.enc(l)[..k]).Stuck?
    ensures DIGEST_LIST.fits(ds) && k < |DIGEST_LIST.enc(ds)| ==> DIGEST_LIST.read(DIGEST_LIST.enc(ds)[..k]).Stuck?
    ensures RESPONSE_ENTRY.fits(a) && k < |RESPONSE_ENTRY.enc(a)|
        ==> ReadAuthResponse(RESPONSE_ENTRY.enc(a)[..k]).Stuck?
  {
    if TPM2B.fits(d) && k < |TPM2B.enc(d)| {
      Tpm2bExact();
      PrefixFree(TPM2B, d, k);
    }
    if SELECTION_LIST.fits(l) && k < |SELECTION_LIST.enc(l)| {
      SelectionListExact();
      PrefixFree(SELECTION_LIST, l, k);
    }
    if DIGEST_LIST.fits(ds) && k < |DIGEST_LIST.enc(ds)| {
      DigestListExact();
      PrefixFree(DIGEST_LIST, ds, k);
    }
    if RESPONSE_ENTRY.fits(a) && k < |RESPONSE_ENTRY.enc(a)| {
      ResponseEntryExact();
      PrefixFree(RESPONSE_ENTRY, a, k);
    }
  }
}
