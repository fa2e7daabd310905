/**
 A reference TPM at the level of bytes: it decodes request frames, checks
 password and session authorizations as section 19.6 of the TPM 2.0 Library
 Specification, Part 1, lays down, runs commands on some device, rolls nonceTPM
 and signs its replies.

 What the commands do is left open: a device is any state with any meaning for
 its handles and command codes.
 */
module ReferenceTpm {
  import opened Basics
  import opened Constants
  import opened Marshal
  import opened Structures
  import opened CryptoCore
  import opened Sessions
  import opened Dispatcher
  import opened Frames

  type ErrorCode = rc: u32 | rc != 0 witness 1

  const RC_FAILURE: ErrorCode := 0x101
  const RC_VALUE: ErrorCode := 0x084
  const RC_COMMAND_SIZE: ErrorCode := 0x142
  const RC_AUTH_CONTEXT: ErrorCode := 0x145
  const RC_AUTH_FAIL: ErrorCode := 0x98E
  const RC_REFERENCE_S0: ErrorCode := 0x918

  datatype Answer = Done(handles: seq<u32>, params: bytes) | Refused(rc: ErrorCode)

  /** A device: how many handles each command has, the Name and the auth value
      of each handle, and what a command (authorized or not) does. */
  datatype Device<!D> = Device(
    handleCount: u32 -> nat,
    name: (D, u32) -> bytes,
    authValue: (D, u32) -> bytes,
    exec: (D, bool, u32, seq<u32>, bytes) -> (D, Answer))

  datatype TpmSession = TpmSession(alg: u16, key: bytes, boundName: bytes, nonceTpm: bytes)

  /** The record of one session-authorized command that was carried out. */
  datatype Entry = Entry(
    frame: bytes, session: u32, alg: u16, key: bytes, nonceBefore: bytes, signed: AuthCommand,
    code: u32, names: seq<bytes>, request: bytes, handles: seq<u32>, params: bytes, nonceAfter: bytes)
  {
    /** What cpHash is taken of: the code, the Names and the request parameters. */
    function CpBytes(): bytes {
      U32Bytes(code) + Flatten(names) + request
    }
  }

  /** The log only remembers; nothing the TPM does depends on it. */
  datatype TpmState<D> = TpmState(device: D, sessions: map<u32, TpmSession>, log: seq<Entry>)

  type Nonce = n: bytes | |n| <= 64 witness []

  /** The random choices of one step. */
  datatype Draw = Draw(nonce: Nonce, handle: u32)

  datatype Served<D> = Served(tpm: TpmState<D>, reply: bytes)

  function NamesOf<D>(dev: Device<D>, device: D, handles: seq<u32>): seq<bytes> {
    seq(|handles|, i requires 0 <= i < |handles| => dev.name(device, handles[i]))
  }

  /** The Name of a handle without a public area (TPM 2.0 Library, Part 1,
      section 16): its octets, the most significant first. */
  function HandleOctets(h: u32): bytes {
    [h / 0x100_0000, h / 0x1_0000 % 0x100, h / 0x100 % 0x100, h % 0x100]
  }

  // ---------- what gets signed, in the TPM's own terms ----------

  /** The session key, and the auth value unless the session is bound to the
      very object. */
  function ObjectKey(t: TpmSession, auth: bytes, name: bytes): bytes {
    if t.boundName == [] || t.boundName != name then t.key + auth else t.key
  }

  /** cpHash, then the newer nonce (the caller's), the older one, the attributes. */
  function CommandMessage(c: Crypto, e: Entry): bytes {
    c.hash(e.alg, e.CpBytes()) + e.signed.nonceCaller + e.nonceBefore + [e.signed.attributes]
  }

  /** rpHash, then the newer nonce (the TPM's), the older one, the attributes. */
  function ReplyMessage(c: Crypto, e: Entry): bytes {
    c.hash(e.alg, U32Bytes(0) + U32Bytes(e.code) + e.params) + e.nonceAfter + e.signed.nonceCaller
    + [e.signed.attributes]
  }

  function ReplyEntry(c: Crypto, e: Entry): AuthResponse {
    AuthResponse(e.nonceAfter, e.signed.attributes, c.hmac(e.alg, e.key, ReplyMessage(c, e)))
  }

  function EntryReply(c: Crypto, e: Entry): bytes {
    ReplyFrame(e.handles, e.params, Some(ReplyEntry(c, e)), [])
  }

  // ---------- serving one frame ----------

  function Serve<D>(c: Crypto, dev: Device<D>, tpm: TpmState<D>, frame: bytes, draw: Draw): Served<D> {
    match ReadCommand(dev.handleCount, frame)
    case Stuck(_, _) => Served(tpm, ErrorFrame(RC_COMMAND_SIZE))
    case Parsed(cmd, _) =>
      if cmd.auth.None? then ServePlain(c, dev, tpm, cmd, draw)
      else if cmd.handles == [] then Served(tpm, ErrorFrame(RC_AUTH_CONTEXT))
      else if cmd.auth.value.handle == RS_PW then ServePassword(dev, tpm, cmd)
      else ServeSession(c, dev, tpm, frame, cmd, draw)
  }

  /** A command without sessions: session management, or the device's own. */
  function ServePlain<D>(c: Crypto, dev: Device<D>, tpm: TpmState<D>, cmd: Command, draw: Draw): Served<D> {
    if cmd.code == CC_START_AUTH_SESSION then StartSession(tpm, cmd, draw)
    else if cmd.code == CC_FLUSH_CONTEXT && FlushedHandle(cmd.params).Some?
            && FlushedHandle(cmd.params).value in tpm.sessions
    then Served(tpm.(sessions := tpm.sessions - {FlushedHandle(cmd.params).value}), ReplyFrame([], [], None, []))
    else ServeOnDevice(dev, tpm, cmd, false, None)
  }

  function FlushedHandle(params: bytes): Option<u32> {
    var p := ReadU32(params);
    if p.Parsed? && p.rest == [] then Some(p.value) else None
  }

  function ServeOnDevice<D>(dev: Device<D>, tpm: TpmState<D>, cmd: Command, authorized: bool,
                            entry: Option<AuthResponse>): Served<D>
  {
    var (device, answer) := dev.exec(tpm.device, authorized, cmd.code, cmd.handles, cmd.params);
    match answer
    case Refused(rc) => Served(tpm, ErrorFrame(rc))
    case Done(handles, params) =>
      if ReplyFits(handles, params, entry, [])
      then Served(tpm.(device := device), ReplyFrame(handles, params, entry, []))
      else Served(tpm, ErrorFrame(RC_FAILURE))
  }

  const PW_ENTRY: AuthResponse := AuthResponse([], CONTINUE_SESSION, [])

  function ServePassword<D>(dev: Device<D>, tpm: TpmState<D>, cmd: Command): Served<D>
    requires cmd.auth.Some? && cmd.handles != []
  {
    if cmd.auth.value.hmac == dev.authValue(tpm.device, cmd.handles[0])
    then ServeOnDevice(dev, tpm, cmd, true, Some(PW_ENTRY))
    else Served(tpm, ErrorFrame(RC_AUTH_FAIL))
  }

  /** What the TPM expects the caller to have signed. */
  function Pending<D>(dev: Device<D>, tpm: TpmState<D>, frame: bytes, cmd: Command, answer: Answer, draw: Draw): Entry
    requires cmd.auth.Some? && cmd.handles != [] && cmd.auth.value.handle in tpm.sessions
  {
    var t := tpm.sessions[cmd.auth.value.handle];
    var names := NamesOf(dev, tpm.device, cmd.handles);
    var key := ObjectKey(t, dev.authValue(tpm.device, cmd.handles[0]), names[0]);
    var (handles, params) := if answer.Done? then (answer.handles, answer.params) else ([], []);
    Entry(frame, cmd.auth.value.handle, t.alg, key, t.nonceTpm, cmd.auth.value,
          cmd.code, names, cmd.params, handles, params, draw.nonce)
  }

  function ServeSession<D>(c: Crypto, dev: Device<D>, tpm: TpmState<D>, frame: bytes, cmd: Command, draw: Draw)
    : Served<D>
    requires cmd.auth.Some? && cmd.handles != []
  {
    if cmd.auth.value.handle !in tpm.sessions then Served(tpm, ErrorFrame(RC_REFERENCE_S0))
    else
      var (device, answer) := dev.exec(tpm.device, true, cmd.code, cmd.handles, cmd.params);
      var e := Pending(dev, tpm, frame, cmd, answer, draw);
      if c.hmac(e.alg, e.key, CommandMessage(c, e)) != e.signed.hmac
      then Served(tpm, ErrorFrame(RC_AUTH_FAIL))
      else CarryOut(c, tpm, device, answer, e)
  }

  /** The command is authorized: it takes effect, the nonce rolls and the reply
      is signed, or it is refused and nothing changes. */
  function CarryOut<D>(c: Crypto, tpm: TpmState<D>, device: D, answer: Answer, e: Entry): Served<D>
    requires e.session in tpm.sessions
  {
    if answer.Refused? then Served(tpm, ErrorFrame(answer.rc))
    else if !ReplyFits(e.handles, e.params, Some(ReplyEntry(c, e)), []) then Served(tpm, ErrorFrame(RC_FAILURE))
    else Served(Rolled(tpm, device, e), EntryReply(c, e))
  }

  function Rolled<D>(tpm: TpmState<D>, device: D, e: Entry): TpmState<D>
    requires e.session in tpm.sessions
  {
    var t := tpm.sessions[e.session];
    TpmState(device,
      if Continues(e.signed.attributes)
      then tpm.sessions[e.session := t.(nonceTpm := e.nonceAfter)]
      else tpm.sessions - {e.session},
      tpm.log + [e])
  }

  predicate Continues(attributes: byte) {
    attributes % 2 == 1
  }

  // ---------- TPM2_StartAuthSession ----------

  datatype StartParams = StartParams(nonceCaller: bytes, salt: bytes, kind: byte, cipher: SymDefObject, alg: u16)

  function ReadStart(s: bytes): Parsed<StartParams> {
    var (nonceCaller, s) :- ReadTpm2b(s);
    var (salt, s) :- ReadTpm2b(s);
    var (kind, s) :- ReadU8(s);
    var (cipher, s) :- ReadSymDef(s);
    var (alg, s) :- ReadU16(s);
    Parsed(StartParams(nonceCaller, salt, kind, cipher, alg), s)
  }

  predicate Startable(p: StartParams, handles: seq<u32>) {
    && handles == [RH_NULL, RH_NULL]
    && p.salt == [] && p.kind == SE_HMAC && p.cipher == NO_CIPHER && IsHash(p.alg)
    && 16 <= |p.nonceCaller| <= SizeOf(p.alg)
  }

  /** Unsalted and unbound, so the session key is empty. */
  function StartSession<D>(tpm: TpmState<D>, cmd: Command, draw: Draw): Served<D> {
    var p := ReadStart(cmd.params);
    if p.Parsed? && p.rest == [] && Startable(p.value, cmd.handles)
       && draw.handle !in tpm.sessions && draw.handle != RS_PW
    then
      Served(tpm.(sessions := tpm.sessions[draw.handle := TpmSession(p.value.alg, [], [], draw.nonce)]),
             ReplyFrame([draw.handle], BufferBytes(draw.nonce), None, []))
    else Served(tpm, ErrorFrame(RC_VALUE))
  }

  // ---------- serving any frames ----------

  /** A frame that reaches the TPM, from whomever, and the TPM's random choices. */
  datatype Arrival = Arrival(frame: bytes, draw: Draw)

  function ServeAll<D>(c: Crypto, dev: Device<D>, tpm: TpmState<D>, frames: seq<Arrival>): TpmState<D> {
    if frames == [] then tpm
    else
      var n := |frames| - 1;
      Serve(c, dev, ServeAll(c, dev, tpm, frames[..n]), frames[n].frame, frames[n].draw).tpm
  }

  // ---------- the transport in between ----------

  /** What can happen to one transmission.  The last event is the general one: the
      TPM is handed any frames at all, the host's own, delayed or altered ones
      and other callers' among them, and any bytes or none come back. */
  datatype Event =
    | Deliver(draw: Draw)                                  // served, and the reply arrives
    | LoseReply(draw: Draw)                                // served, but no reply arrives
    | LoseRequest                                          // never reaches the TPM
    | Warn(rc: ErrorCode)                                  // answered with a code, not served
    | Tamper(frames: seq<Arrival>, reply: Option<bytes>)

  datatype World<D> = World(tpm: TpmState<D>, schedule: seq<Event>)

  function Carry<D>(c: Crypto, dev: Device<D>, w: World<D>, frame: bytes): (World<D>, Result<bytes>) {
    if w.schedule == [] then (w, Failure(Unreachable))
    else
      var later := w.schedule[1..];
      match w.schedule[0]
      case Deliver(draw) =>
        var served := Serve(c, dev, w.tpm, frame, draw);
        (World(served.tpm, later), Success(served.reply))
      case LoseReply(draw) => (World(Serve(c, dev, w.tpm, frame, draw).tpm, later), Failure(Unreachable))
      case LoseRequest => (World(w.tpm, later), Failure(Unreachable))
      case Warn(rc) => (World(w.tpm, later), Success(ErrorFrame(rc)))
      case Tamper(frames, reply) =>
        (World(ServeAll(c, dev, w.tpm, frames), later),
         if reply.Some? then Success(reply.value) else Failure(Unreachable))
  }

  function Link<D>(c: Crypto, dev: Device<D>): Step<World<D>> {
    (w: World<D>, frame: bytes) => Carry(c, dev, w, frame)
  }
}
