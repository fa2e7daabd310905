/**
 A program at the host, from opening a session to flushing it, in which each
 request is made from the replies before it: the sealing flow over the wire.
 */
module HostProgram {
  import opened Basics
  import opened Constants
  import opened Structures
  import opened CryptoCore
  import opened Sessions
  import opened Dispatcher
  import opened ReferenceTpm
  import opened Exchanges
  import opened LockStep
  import opened Delivery
  import opened Transparency
  import opened SessionCommands
  import opened ObjectCommands
  import opened ObjectStore
  import opened EndToEnd

  /** How far the program has got, with what; or the error it has stopped at. */
  datatype Progress<+T> = Going(ends: Ends<Store>, value: T) | Broken(tpm: TpmState<Store>, error: Error) {
    predicate IsFailure() {
      Broken?
    }

    function PropagateFailure<U>(): Progress<U>
      requires Broken?
    {
      Broken(tpm, error)
    }

    function Extract(): (Ends<Store>, T)
      requires Going?
    {
      (ends, value)
    }
  }

  /** By session with this entropy or by password, and what happens on the way. */
  datatype Way = Way(entropy: Option<bytes>, events: seq<Event>)

  /** The warnings before a delivery, and the TPM's random choices in it. */
  datatype Timing = Timing(codes: seq<ErrorCode>, draw: Draw)

  datatype Job = Job(
    alg: u16, nonceCaller: bytes, opening: Timing, closing: Timing,
    hierarchy: u32, hierarchyAuth: bytes, parent: SensitiveCreate, parentTemplate: Public,
    secret: SensitiveCreate, template: Public,
    primary: Way, create: Way, load: Way, unseal: Way, flushItem: seq<Event>, flushParent: seq<Event>)

  function CredOf(way: Way, authValue: bytes): Credential {
    match way.entropy
    case None => ByPassword(authValue)
    case Some(entropy) => BySession(authValue, entropy)
  }

  // ---------- the requests, from the replies so far ----------

  function PrimaryRequest(job: Job): Request {
    Request(OpCreatePrimary(job.hierarchy, job.parent, job.parentTemplate), [],
            CredOf(job.primary, job.hierarchyAuth), job.primary.events)
  }

  function ChildRequest(job: Job, parent: CreatePrimaryResult): Request {
    Request(OpCreate(parent.handle, job.secret, job.template), parent.name,
            CredOf(job.create, job.parent.userAuth), job.create.events)
  }

  function LoadRequest(job: Job, parent: CreatePrimaryResult, child: CreateResult): Request {
    Request(OpLoad(parent.handle, child.private, child.public), parent.name,
            CredOf(job.load, job.parent.userAuth), job.load.events)
  }

  function UnsealRequest(job: Job, item: LoadResult): Request {
    Request(OpUnseal(item.handle), item.name, CredOf(job.unseal, job.secret.userAuth), job.unseal.events)
  }

  function FlushRequest(item: u32, events: seq<Event>): Request {
    Request(OpFlush(item), [], NoCredential, events)
  }

  // ---------- the program ----------

  predicate SameKind(op: Op, v: Value) {
    match op
    case OpCreatePrimary(_, _, _) => v.Primary?
    case OpCreate(_, _, _) => v.Created?
    case OpLoad(_, _, _) => v.Loaded?
    case OpUnseal(_) => v.Unsealed?
    case OpFlush(_) => v.Flushed?
  }

  function Issue(c: Crypto, o: Oracle, x: Ends<Store>, q: Request): Progress<Value> {
    match HostResult(c, o, x, q)
    case Success(v) => Going(HostEnds(c, o, x, q), v)
    case Failure(e) => Broken(HostEnds(c, o, x, q).tpm, e)
  }

  lemma ValueFromSameKind(op: Op, result: Result<RawResponse>)
    requires result.Success? ==> |result.value.handles| == CallOf(op, []).respHandles
    ensures ValueFrom(op, result).Success? ==> SameKind(op, ValueFrom(op, result).value)
  {
  }

  lemma IssueSameKind(c: Crypto, o: Oracle, x: Ends<Store>, q: Request)
    ensures var p := Issue(c, o, x, q); p.Going? ==> SameKind(q.op, p.value)
  {
    HostHandles(c, o, x, q);
    ValueFromSameKind(q.op, HostOutcome(c, o, x, q).result);
  }

  type Issuer = (Ends<Store>, Request) -> Progress<Value>

  /** A value is of the kind that its command returns. */
  ghost predicate Typed(issue: Issuer) {
    forall x, q :: issue(x, q).Going? ==> SameKind(q.op, issue(x, q).value)
  }

  ghost predicate Issues(issue: Issuer, c: Crypto, o: Oracle) {
    forall x, q {:trigger Issue(c, o, x, q)} :: issue(x, q) == Issue(c, o, x, q)
  }

  function Issuing(c: Crypto, o: Oracle): (issue: Issuer)
    ensures Typed(issue) && Issues(issue, c, o)
  {
    var issue := (x: Ends<Store>, q: Request) => Issue(c, o, x, q);
    assert Typed(issue) by {
      forall x, q ensures issue(x, q).Going? ==> SameKind(q.op, issue(x, q).value) {
        IssueSameKind(c, o, x, q);
      }
    }
    issue
  }

  function Open(c: Crypto, o: Oracle, tpm: TpmState<Store>, job: Job): Progress<()> {
    var w := Delivering(tpm, job.opening.codes, job.opening.draw);
    var call := StartCall(job.alg, job.nonceCaller);
    var out := RunCall(c, Link(c, StoreDevice(o)), w, call, NoAuthView, []);
    HandlesAsAsked(c, Link(c, StoreDevice(o)), w, call, NoAuthView, []);
    match Opened(c, job.alg, job.nonceCaller, out.result)
    case Success(s) => Going(Ends(s, out.state.tpm), ())
    case Failure(e) => Broken(out.state.tpm, e)
  }

  function Close(c: Crypto, o: Oracle, x: Ends<Store>, job: Job): Progress<()> {
    var w := Delivering(x.tpm, job.closing.codes, job.closing.draw);
    var out := RunCall(c, Link(c, StoreDevice(o)), w, FlushCall(x.session.handle), NoAuthView, []);
    match out.result
    case Success(_) => Going(x.(tpm := out.state.tpm), ())
    case Failure(e) => Broken(out.state.tpm, e)
  }

  /** Create a primary under the hierarchy and a sealed object under that, load
      it and unseal it, then flush both. */
  function Work(issue: Issuer, x: Ends<Store>, job: Job): Progress<bytes>
    requires Typed(issue)
  {
    var (x, parent) :- issue(x, PrimaryRequest(job));
    var (x, child) :- issue(x, ChildRequest(job, parent.primary));
    var (x, item) :- issue(x, LoadRequest(job, parent.primary, child.created));
    var (x, out) :- issue(x, UnsealRequest(job, item.load));
    var (x, _) :- issue(x, FlushRequest(item.load.handle, job.flushItem));
    var (x, _) :- issue(x, FlushRequest(parent.primary.handle, job.flushParent));
    Going(x, out.data)
  }

  function SealAndUnseal(c: Crypto, o: Oracle, tpm: TpmState<Store>, job: Job): Progress<bytes> {
    var (x, _) :- Open(c, o, tpm, job);
    var (x, data) :- Work(Issuing(c, o), x, job);
    var (x, _) :- Close(c, o, x, job);
    Going(x, data)
  }

  // ---------- the flow in the store ----------

  ghost predicate Feasible(o: Oracle, st: Store, job: Job) {
    Room(o, st, job) && TemplatesServe(job)
  }

  /** The first template is of a parent, the second of sealed data, and each goes
      with the data supplied. */
  predicate TemplatesServe(job: Job) {
    && PublicFits(job.parentTemplate) && PublicFits(job.template)
    && IsStorageParent(job.parentTemplate) && OriginFits(job.parent, job.parentTemplate)
    && job.template.kind == ALG_KEYEDHASH && OriginFits(job.secret, job.template)
  }

  /** The caller knows the hierarchy's auth value, the secrets fit, and there is
      room for two objects and a blob. */
  ghost predicate Room(o: Oracle, st: Store, job: Job) {
    && job.hierarchy in st.hierarchies && job.hierarchy !in st.loaded
    && st.hierarchies[job.hierarchy] == job.hierarchyAuth && |job.hierarchyAuth| <= U16_MAX
    && SensitiveFits(job.parent) && SensitiveFits(job.secret)
    && o.private(st.made + 1) !in st.blobs
    && SlotFree(o, st) && o.slot(st.made + 2) !in st.loaded && o.slot(st.made + 2) !in st.hierarchies
    && o.slot(st.made + 2) != o.slot(st.made)
  }

  /** The states of the store between the commands, and what these return. */
  datatype Flow = Flow(
    made: Store, grown: Store, full: Store, flushed: Store, end: Store,
    parent: CreatePrimaryResult, child: CreateResult, item: LoadResult)

  ghost predicate Obeys(o: Oracle, st: Store, op: Op, authValue: bytes, name: bytes, after: Store, v: Value) {
    && Invoke(o, st, op, Some(authValue)) == (after, Ok(v))
    && AuthOf(st, op.Handle()) == authValue && NameOf(st, op.Handle()) == name
  }

  ghost predicate Flows(o: Oracle, st: Store, job: Job, f: Flow) {
    && Obeys(o, st, PrimaryRequest(job).op, job.hierarchyAuth, HandleOctets(job.hierarchy), f.made, Primary(f.parent))
    && Obeys(o, f.made, ChildRequest(job, f.parent).op, job.parent.userAuth, f.parent.name, f.grown, Created(f.child))
    && Obeys(o, f.grown, LoadRequest(job, f.parent, f.child).op, job.parent.userAuth, f.parent.name, f.full,
             Loaded(f.item))
    && Obeys(o, f.full, UnsealRequest(job, f.item).op, job.secret.userAuth, f.item.name, f.full,
             Unsealed(job.secret.data))
    && Invoke(o, f.full, OpFlush(f.item.handle), None) == (f.flushed, Ok(Flushed))
    && Invoke(o, f.flushed, OpFlush(f.parent.handle), None) == (f.end, Ok(Flushed))
  }

  /** An object of this Name is loaded, with this auth value. */
  predicate IsLoaded(st: Store, h: u32, name: bytes, authValue: bytes) {
    h in st.loaded && h !in st.hierarchies && st.loaded[h].name == name && st.loaded[h].auth == authValue
  }

  lemma PrimaryObeyed(o: Oracle, st: Store, job: Job) returns (made: Store, parent: CreatePrimaryResult)
    requires Feasible(o, st, job)
    ensures Obeys(o, st, PrimaryRequest(job).op, job.hierarchyAuth, HandleOctets(job.hierarchy), made, Primary(parent))
    ensures parent.handle == o.slot(st.made) && IsLoaded(made, parent.handle, parent.name, job.parent.userAuth)
    ensures made.loaded[parent.handle].isParent && made.loaded - {parent.handle} == st.loaded
    ensures made.made == st.made + 1 && made.hierarchies == st.hierarchies && made.blobs == st.blobs
  {
    var (after, a) := Invoke(o, st, PrimaryRequest(job).op, Some(job.hierarchyAuth));
    made, parent := after, a.value.primary;
  }

  lemma ChildObeyed(o: Oracle, st: Store, job: Job, parent: CreatePrimaryResult)
    returns (grown: Store, child: CreateResult)
    requires IsLoaded(st, parent.handle, parent.name, job.parent.userAuth) && st.loaded[parent.handle].isParent
    requires SensitiveFits(job.secret) && OriginFits(job.secret, job.template) && job.template.kind == ALG_KEYEDHASH
    requires o.private(st.made) !in st.blobs
    ensures Obeys(o, st, ChildRequest(job, parent).op, job.parent.userAuth, parent.name, grown, Created(child))
    ensures |child.private| <= U16_MAX && |child.public| <= U16_MAX && Wraps(grown, parent, child, job.secret)
    ensures grown.made == st.made + 1 && grown.hierarchies == st.hierarchies && grown.loaded == st.loaded
  {
    var (after, a) := Invoke(o, st, ChildRequest(job, parent).op, Some(job.parent.userAuth));
    grown, child := after, a.value.created;
  }

  /** The blob holds the secret for this parent. */
  predicate Wraps(st: Store, parent: CreatePrimaryResult, child: CreateResult, v: SensitiveCreate) {
    child.private in st.blobs &&
    var blob := st.blobs[child.private];
    && blob.parentName == parent.name && blob.public == child.public
    && blob.entity.auth == v.userAuth && blob.entity.data == v.data && blob.entity.isSealed
  }

  lemma ItemObeyed(o: Oracle, st: Store, job: Job, parent: CreatePrimaryResult, child: CreateResult)
    returns (full: Store, item: LoadResult)
    requires IsLoaded(st, parent.handle, parent.name, job.parent.userAuth) && st.loaded[parent.handle].isParent
    requires Wraps(st, parent, child, job.secret) && SlotFree(o, st)
    ensures Obeys(o, st, LoadRequest(job, parent, child).op, job.parent.userAuth, parent.name, full, Loaded(item))
    ensures Obeys(o, full, UnsealRequest(job, item).op, job.secret.userAuth, item.name, full, Unsealed(job.secret.data))
    ensures item.handle == o.slot(st.made) && item.handle in full.loaded && full.loaded - {item.handle} == st.loaded
    ensures full.hierarchies == st.hierarchies
  {
    var (after, a) := Invoke(o, st, LoadRequest(job, parent, child).op, Some(job.parent.userAuth));
    full, item := after, a.value.load;
  }

  lemma FlushObeyed(o: Oracle, st: Store, h: u32) returns (after: Store)
    requires h in st.loaded
    ensures Invoke(o, st, OpFlush(h), None) == (after, Ok(Flushed))
    ensures after.loaded == st.loaded - {h} && after.hierarchies == st.hierarchies
  {
    after := Invoke(o, st, OpFlush(h), None).0;
  }

  /** With a hierarchy, two free slots and an unused blob, the flow goes through
      from start to end and leaves the loaded objects from before. */
  lemma FlowsInStore(o: Oracle, st: Store, job: Job) returns (f: Flow)
    requires Feasible(o, st, job)
    ensures Flows(o, st, job, f)
    ensures f.end.loaded == st.loaded && f.end.hierarchies == st.hierarchies
    ensures f.parent.handle == o.slot(st.made) && f.item.handle == o.slot(st.made + 2)
    ensures |f.child.private| <= U16_MAX && |f.child.public| <= U16_MAX
  {
    var made, parent := PrimaryObeyed(o, st, job);
    var grown, child := ChildObeyed(o, made, job, parent);
    var full, item := ItemObeyed(o, grown, job, parent, child);
    var flushed := FlushObeyed(o, full, item.handle);
    var end := FlushObeyed(o, flushed, parent.handle);
    f := Flow(made, grown, full, flushed, end, parent, child, item);
  }

  // ---------- the flow over the wire ----------

  /** The transport delivers, and a session nonce has the digest's length. */
  ghost predicate Timely(way: Way, alg: u16) {
    Prompt(way.events) && (way.entropy.Some? ==> IsHash(alg) && |way.entropy.value| == SizeOf(alg))
  }

  ghost predicate AllTimely(job: Job) {
    && Timely(job.primary, job.alg) && Timely(job.create, job.alg)
    && Timely(job.load, job.alg) && Timely(job.unseal, job.alg)
    && Prompt(job.flushItem) && Prompt(job.flushParent)
    && FewWarnings(job.opening.codes) && FewWarnings(job.closing.codes)
  }

  /** From x0 to x the store has become st, and the sessions are as they were. */
  ghost predicate Reached(x0: Ends<Store>, x: Ends<Store>, st: Store) {
    && InStep(x.session, x.tpm) && x.tpm.device == st
    && SameSession(x0.session, x0.tpm, x.session, x.tpm)
    && x.tpm.sessions.Keys == x0.tpm.sessions.Keys
  }

  lemma RightWay(o: Oracle, st: Store, q: Request, way: Way, authValue: bytes, alg: u16, sessions: set<u32>)
    requires OpFits(q.op) && q.op.NeedsAuth() && q.cred == CredOf(way, authValue) && q.events == way.events
    requires Timely(way, alg) && |authValue| <= U16_MAX && AuthOf(st, q.op.Handle()) == authValue
    requires Named(st, q.op, q.name)
    ensures Right(o, st, q, alg, sessions) && PresentedBy(q) == Some(authValue)
  {
  }

  /** One command that the store would obey. */
  lemma IssueReaches(c: Crypto, o: Oracle, issue: Issuer, x0: Ends<Store>, x: Ends<Store>, q: Request, st: Store,
                     after: Store, v: Value) returns (x': Ends<Store>)
    requires Issues(issue, c, o)
    requires Reached(x0, x, st) && Right(o, st, q, x0.session.alg, x0.tpm.sessions.Keys)
    requires Invoke(o, st, q.op, PresentedBy(q)) == (after, Ok(v))
    ensures issue(x, q) == Going(x', v) && Reached(x0, x', after)
  {
    x' := HostEnds(c, o, x, q);
    ghost var p := Issue(c, o, x, q);
    RightIsSensible(c, o, x, q);
    CommandIsStoreCall(c, o, x, q);
    SameSessionKeys(x.session, x.tpm, x'.session, x'.tpm);
  }

  /** One authorized command, made in either way. */
  lemma ObeyedReaches(c: Crypto, o: Oracle, issue: Issuer, x0: Ends<Store>, x: Ends<Store>, q: Request, way: Way,
                      authValue: bytes, st: Store, after: Store, v: Value) returns (x': Ends<Store>)
    requires Issues(issue, c, o) && Reached(x0, x, st) && OpFits(q.op) && q.op.NeedsAuth()
    requires q.cred == CredOf(way, authValue) && q.events == way.events
    requires Timely(way, x0.session.alg) && |authValue| <= U16_MAX
    requires Obeys(o, st, q.op, authValue, if q.op.OpCreatePrimary? then HandleOctets(q.op.hierarchy) else q.name,
                   after, v)
    ensures issue(x, q) == Going(x', v) && Reached(x0, x', after)
  {
    RightWay(o, st, q, way, authValue, x0.session.alg, x0.tpm.sessions.Keys);
    x' := IssueReaches(c, o, issue, x0, x, q, st, after, v);
  }

  lemma FlushReaches(c: Crypto, o: Oracle, issue: Issuer, x0: Ends<Store>, x: Ends<Store>, item: u32,
                     events: seq<Event>, st: Store, after: Store) returns (x': Ends<Store>)
    requires Issues(issue, c, o) && Reached(x0, x, st) && Prompt(events) && item !in x0.tpm.sessions
    requires Invoke(o, st, OpFlush(item), None) == (after, Ok(Flushed))
    ensures issue(x, FlushRequest(item, events)) == Going(x', Flushed) && Reached(x0, x', after)
  {
    x' := IssueReaches(c, o, issue, x0, x, FlushRequest(item, events), st, after, Flushed);
  }

  /** Up to the loaded object. */
  lemma LoadReached(c: Crypto, o: Oracle, issue: Issuer, x0: Ends<Store>, job: Job, f: Flow)
    returns (x1: Ends<Store>, x2: Ends<Store>, x3: Ends<Store>)
    requires Issues(issue, c, o) && InStep(x0.session, x0.tpm) && x0.session.alg == job.alg && AllTimely(job)
    requires Feasible(o, x0.tpm.device, job) && Flows(o, x0.tpm.device, job, f)
    requires |f.child.private| <= U16_MAX && |f.child.public| <= U16_MAX
    ensures issue(x0, PrimaryRequest(job)) == Going(x1, Primary(f.parent))
    ensures issue(x1, ChildRequest(job, f.parent)) == Going(x2, Created(f.child))
    ensures issue(x2, LoadRequest(job, f.parent, f.child)) == Going(x3, Loaded(f.item))
    ensures Reached(x0, x3, f.full)
  {
    var st := x0.tpm.device;
    x1 := ObeyedReaches(c, o, issue, x0, x0, PrimaryRequest(job), job.primary, job.hierarchyAuth, st, f.made,
                        Primary(f.parent));
    x2 := ObeyedReaches(c, o, issue, x0, x1, ChildRequest(job, f.parent), job.create, job.parent.userAuth, f.made,
                        f.grown, Created(f.child));
    x3 := ObeyedReaches(c, o, issue, x0, x2, LoadRequest(job, f.parent, f.child), job.load, job.parent.userAuth,
                        f.grown, f.full, Loaded(f.item));
  }

  /** From the loaded object on. */
  lemma EndReached(c: Crypto, o: Oracle, issue: Issuer, x0: Ends<Store>, x3: Ends<Store>, job: Job, f: Flow)
    returns (x4: Ends<Store>, x5: Ends<Store>, x6: Ends<Store>)
    requires Issues(issue, c, o) && Reached(x0, x3, f.full) && x0.session.alg == job.alg && AllTimely(job)
    requires Feasible(o, x0.tpm.device, job) && Flows(o, x0.tpm.device, job, f)
    requires f.parent.handle !in x0.tpm.sessions && f.item.handle !in x0.tpm.sessions
    ensures issue(x3, UnsealRequest(job, f.item)) == Going(x4, Unsealed(job.secret.data))
    ensures issue(x4, FlushRequest(f.item.handle, job.flushItem)) == Going(x5, Flushed)
    ensures issue(x5, FlushRequest(f.parent.handle, job.flushParent)) == Going(x6, Flushed)
    ensures Reached(x0, x6, f.end)
  {
    x4 := ObeyedReaches(c, o, issue, x0, x3, UnsealRequest(job, f.item), job.unseal, job.secret.userAuth, f.full,
                        f.full, Unsealed(job.secret.data));
    x5 := FlushReaches(c, o, issue, x0, x4, f.item.handle, job.flushItem, f.full, f.flushed);
    x6 := FlushReaches(c, o, issue, x0, x5, f.parent.handle, job.flushParent, f.flushed, f.end);
  }

  lemma WorkGoes(issue: Issuer, job: Job, f: Flow, x0: Ends<Store>, x1: Ends<Store>, x2: Ends<Store>, x3: Ends<Store>,
                 x4: Ends<Store>, x5: Ends<Store>, x6: Ends<Store>, data: bytes)
    requires Typed(issue)
    requires issue(x0, PrimaryRequest(job)) == Going(x1, Primary(f.parent))
    requires issue(x1, ChildRequest(job, f.parent)) == Going(x2, Created(f.child))
    requires issue(x2, LoadRequest(job, f.parent, f.child)) == Going(x3, Loaded(f.item))
    requires issue(x3, UnsealRequest(job, f.item)) == Going(x4, Unsealed(data))
    requires issue(x4, FlushRequest(f.item.handle, job.flushItem)) == Going(x5, Flushed)
    requires issue(x5, FlushRequest(f.parent.handle, job.flushParent)) == Going(x6, Flushed)
    ensures Work(issue, x0, job) == Going(x6, data)
  {
  }

  lemma WorkReaches(c: Crypto, o: Oracle, issue: Issuer, x0: Ends<Store>, job: Job, f: Flow)
    returns (x': Ends<Store>)
    requires Typed(issue) && Issues(issue, c, o)
    requires InStep(x0.session, x0.tpm) && x0.session.alg == job.alg && AllTimely(job)
    requires Feasible(o, x0.tpm.device, job) && Flows(o, x0.tpm.device, job, f)
    requires |f.child.private| <= U16_MAX && |f.child.public| <= U16_MAX
    requires f.parent.handle !in x0.tpm.sessions && f.item.handle !in x0.tpm.sessions
    ensures Work(issue, x0, job) == Going(x', job.secret.data) && Reached(x0, x', f.end)
  {
    var x1, x2, x3 := LoadReached(c, o, issue, x0, job, f);
    var x4, x5, x6 := EndReached(c, o, issue, x0, x3, job, f);
    WorkGoes(issue, job, f, x0, x1, x2, x3, x4, x5, x6, job.secret.data);
    x' := x6;
  }

  lemma WorkSucceeds(c: Crypto, o: Oracle, issue: Issuer, x0: Ends<Store>, st: Store, job: Job)
    returns (x': Ends<Store>)
    requires Typed(issue) && Issues(issue, c, o)
    requires InStep(x0.session, x0.tpm) && x0.session.alg == job.alg && x0.tpm.device == st && AllTimely(job)
    requires Feasible(o, st, job) && o.slot(st.made) !in x0.tpm.sessions && o.slot(st.made + 2) !in x0.tpm.sessions
    ensures Work(issue, x0, job) == Going(x', job.secret.data)
    ensures InStep(x'.session, x'.tpm) && SameSession(x0.session, x0.tpm, x'.session, x'.tpm)
    ensures x'.tpm.device.loaded == st.loaded && x'.tpm.device.hierarchies == st.hierarchies
  {
    var f := FlowsInStore(o, st, job);
    x' := WorkReaches(c, o, issue, x0, job, f);
  }

  /** The session can be started, the flow is feasible in the store, and the
      handles of the two objects are not those of sessions. */
  ghost predicate Ready(o: Oracle, tpm: TpmState<Store>, st: Store, job: Job) {
    && tpm.device == st && CanStart(tpm, job.alg, job.nonceCaller, job.opening.draw)
    && Feasible(o, st, job) && AllTimely(job) && Apart(o, tpm, st, job)
  }

  predicate Apart(o: Oracle, tpm: TpmState<Store>, st: Store, job: Job) {
    var first, second := o.slot(st.made), o.slot(st.made + 2);
    && first !in tpm.sessions && first != job.opening.draw.handle
    && second !in tpm.sessions && second != job.opening.draw.handle
  }

  lemma OpenSucceeds(c: Crypto, o: Oracle, tpm: TpmState<Store>, job: Job) returns (x: Ends<Store>)
    requires CanStart(tpm, job.alg, job.nonceCaller, job.opening.draw) && FewWarnings(job.opening.codes)
    ensures Open(c, o, tpm, job) == Going(x, ())
    ensures Established(tpm, x.tpm, job.alg, x.session, job.opening.draw)
  {
    SessionEstablished(c, StoreDevice(o), tpm, job.alg, job.nonceCaller, job.opening.codes, job.opening.draw);
    x := Open(c, o, tpm, job).ends;
  }

  lemma CloseSucceeds(c: Crypto, o: Oracle, x: Ends<Store>, job: Job)
    requires x.session.handle in x.tpm.sessions && FewWarnings(job.closing.codes)
    ensures Close(c, o, x, job) == Going(x.(tpm := x.tpm.(sessions := x.tpm.sessions - {x.session.handle})), ())
  {
    SessionFlushed(c, StoreDevice(o), x.tpm, x.session.handle, job.closing.codes, job.closing.draw);
  }

  lemma SealAndUnsealGoes(c: Crypto, o: Oracle, tpm: TpmState<Store>, job: Job, x: Ends<Store>, x': Ends<Store>,
                          end: Ends<Store>, data: bytes)
    requires Open(c, o, tpm, job) == Going(x, ()) && Work(Issuing(c, o), x, job) == Going(x', data)
    requires Close(c, o, x', job) == Going(end, ())
    ensures SealAndUnseal(c, o, tpm, job) == Going(end, data)
  {
  }

  lemma EstablishedBeside<D>(tpm: TpmState<D>, after: TpmState<D>, alg: u16, s: SessionState, draw: Draw)
    requires Established(tpm, after, alg, s, draw)
    ensures InStep(s, after) && s.alg == alg && after.device == tpm.device
    ensures after.sessions - {s.handle} == tpm.sessions && after.sessions.Keys == tpm.sessions.Keys + {draw.handle}
  {
  }

  lemma StillApart(o: Oracle, tpm: TpmState<Store>, x: Ends<Store>, st: Store, job: Job)
    requires Apart(o, tpm, st, job) && Established(tpm, x.tpm, job.alg, x.session, job.opening.draw)
    ensures InStep(x.session, x.tpm) && x.session.alg == job.alg && x.tpm.device == tpm.device
    ensures o.slot(st.made) !in x.tpm.sessions && o.slot(st.made + 2) !in x.tpm.sessions
  {
    EstablishedBeside(tpm, x.tpm, job.alg, x.session, job.opening.draw);
  }

  lemma SessionsBeside<D>(tpm: TpmState<D>, s: SessionState, after: TpmState<D>, s': SessionState, after': TpmState<D>,
                          alg: u16, draw: Draw)
    requires Established(tpm, after, alg, s, draw) && InStep(s', after') && SameSession(s, after, s', after')
    ensures s'.handle in after'.sessions && after'.sessions - {s'.handle} == tpm.sessions
  {
    EstablishedBeside(tpm, after, alg, s, draw);
  }

  lemma WorkAfterOpening(c: Crypto, o: Oracle, issue: Issuer, tpm: TpmState<Store>, x: Ends<Store>, st: Store,
                         job: Job) returns (x': Ends<Store>)
    requires Typed(issue) && Issues(issue, c, o) && tpm.device == st
    requires Feasible(o, st, job) && AllTimely(job) && Apart(o, tpm, st, job)
    requires Established(tpm, x.tpm, job.alg, x.session, job.opening.draw)
    ensures Work(issue, x, job) == Going(x', job.secret.data)
    ensures x'.session.handle in x'.tpm.sessions && x'.tpm.sessions - {x'.session.handle} == tpm.sessions
    ensures x'.tpm.device.loaded == st.loaded && x'.tpm.device.hierarchies == st.hierarchies
  {
    StillApart(o, tpm, x, st, job);
    x' := WorkSucceeds(c, o, issue, x, st, job);
    SessionsBeside(tpm, x.session, x.tpm, x'.session, x'.tpm, job.alg, job.opening.draw);
  }

  /** The whole flow over the wire, each command by password or by the session
      just opened, each request made from the replies before it: it goes through,
      what is unsealed is what was sealed, and afterwards the loaded objects and
      the sessions are those from before. */
  lemma SealAndUnsealSucceeds(c: Crypto, o: Oracle, tpm: TpmState<Store>, job: Job)
    requires Ready(o, tpm, tpm.device, job)
    ensures var p := SealAndUnseal(c, o, tpm, job);
      && p.Going? && p.value == job.secret.data
      && p.ends.tpm.sessions == tpm.sessions
      && p.ends.tpm.device.loaded == tpm.device.loaded && p.ends.tpm.device.hierarchies == tpm.device.hierarchies
  {
    var x := OpenSucceeds(c, o, tpm, job);
    var x' := WorkAfterOpening(c, o, Issuing(c, o), tpm, x, tpm.device, job);
    CloseSucceeds(c, o, x', job);
    SealAndUnsealGoes(c, o, tpm, job, x, x', x'.(tpm := x'.tpm.(sessions := x'.tpm.sessions - {x'.session.handle})),
                      job.secret.data);
  }

  /** The stock templates do: a storage parent with no data of its own, and data
      to be sealed. */
  lemma StockTemplatesServe(job: Job, nameAlg: u16, nameAlg': u16)
    requires job.parentTemplate == EccStorageParent(nameAlg) && job.parent.data == []
    requires job.template == SealedData(nameAlg') && job.secret.data != []
    ensures TemplatesServe(job)
  {
    TemplatesFit(nameAlg);
    TemplatesFit(nameAlg');
    ParentAttributes(nameAlg, 5);
    ParentAttributes(nameAlg, 16);
    ParentAttributes(nameAlg, 17);
    SealedDataAttributes(nameAlg', 5);
  }

  /** The flow with the two stock templates. */
  lemma SealAndUnsealStock(c: Crypto, o: Oracle, tpm: TpmState<Store>, job: Job, nameAlg: u16, nameAlg': u16)
    requires CanStart(tpm, job.alg, job.nonceCaller, job.opening.draw) && AllTimely(job)
    requires Room(o, tpm.device, job) && Apart(o, tpm, tpm.device, job)
    requires job.parentTemplate == EccStorageParent(nameAlg) && job.parent.data == []
    requires job.template == SealedData(nameAlg') && job.secret.data != []
    ensures var p := SealAndUnseal(c, o, tpm, job);
      p.Going? && p.value == job.secret.data && p.ends.tpm.sessions == tpm.sessions
  {
    StockTemplatesServe(job, nameAlg, nameAlg');
    SealAndUnsealSucceeds(c, o, tpm, job);
  }
}
