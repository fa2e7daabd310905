/**
 What the typed commands are about, with no bytes in sight: hierarchies, loaded
 objects and wrapped blobs, each with a Name and an auth value.  The same store
 behind the wire is a device of the reference TPM.
 */
module ObjectStore {
  import opened Basics
  import opened Bits
  import opened Constants
  import opened Marshal
  import opened Structures
  import opened ReferenceTpm
  import opened ObjectCommands

  type Short = b: bytes | |b| <= 4096 witness []
  type Tpm2bData = b: bytes | |b| <= U16_MAX witness []
  type Transient = h: u32 | 0x8000_0000 <= h < 0x8100_0000 witness 0x8000_0000

  const RC_ATTRIBUTES: ErrorCode := 0x082
  const RC_HANDLE: ErrorCode := 0x08B
  const RC_TYPE: ErrorCode := 0x08A
  const RC_SIZE: ErrorCode := 0x095
  const RC_INTEGRITY: ErrorCode := 0x09F
  const RC_AUTH_MISSING: ErrorCode := 0x125
  const RC_COMMAND_CODE: ErrorCode := 0x143
  const RC_OBJECT_MEMORY: ErrorCode := 0x902

  // ---------- the store ----------

  datatype Creation = Creation(data: Short, hash: Short, tag: u16, hierarchy: u32, digest: Short)

  /** Whatever the TPM makes up, the n-th time it makes something up. */
  datatype Oracle = Oracle(
    slot: nat -> Transient,
    private: nat -> Short,
    area: (nat, Public) -> Short,
    name: bytes -> Short,
    creation: nat -> Creation)

  datatype Entity = Entity(name: Short, auth: Tpm2bData, data: Tpm2bData, isSealed: bool, isParent: bool)
  datatype Blob = Blob(parentName: bytes, public: bytes, entity: Entity)
  datatype Store = Store(hierarchies: map<u32, bytes>, loaded: map<u32, Entity>, blobs: map<bytes, Blob>, made: nat)

  datatype Op =
    | OpCreatePrimary(hierarchy: u32, sensitive: SensitiveCreate, template: Public)
    | OpCreate(parent: u32, sensitive: SensitiveCreate, template: Public)
    | OpLoad(parent: u32, private: bytes, public: bytes)
    | OpUnseal(item: u32)
    | OpFlush(item: u32)
  {
    function Handle(): u32 {
      match this
      case OpCreatePrimary(h, _, _) => h
      case OpCreate(h, _, _) => h
      case OpLoad(h, _, _) => h
      case OpUnseal(h) => h
      case OpFlush(h) => h
    }

    predicate NeedsAuth() {
      !OpFlush?
    }
  }

  datatype Value =
    | Primary(primary: CreatePrimaryResult)
    | Created(created: CreateResult)
    | Loaded(load: LoadResult)
    | Unsealed(data: bytes)
    | Flushed

  datatype Answered = Ok(value: Value) | No(rc: ErrorCode) {
    function ToResult(): Result<Value> {
      match this
      case Ok(v) => Success(v)
      case No(rc) => Failure(Error.Code(rc))
    }
  }

  function AuthOf(st: Store, h: u32): bytes {
    if h in st.hierarchies then st.hierarchies[h]
    else if h in st.loaded then st.loaded[h].auth
    else []
  }

  function NameOf(st: Store, h: u32): bytes {
    if h in st.loaded then st.loaded[h].name else HandleOctets(h)
  }

  function Object(name: Short, v: SensitiveCreate, template: Public): Entity
    requires SensitiveFits(v)
  {
    Entity(name, v.userAuth, v.data, template.kind == ALG_KEYEDHASH, IsStorageParent(template))
  }

  /** A parent is restricted, decrypts, and has a cipher for its children. */
  predicate IsStorageParent(template: Public) {
    && HasBit(template.attributes, 16) && HasBit(template.attributes, 17)
    && template.parameters.EccParms? && template.parameters.symmetric.algorithm != ALG_NULL
  }

  /** The attribute sensitiveDataOrigin says that no data is supplied. */
  predicate OriginFits(v: SensitiveCreate, template: Public) {
    HasBit(template.attributes, 5) <==> v.data == []
  }

  /** Loads an object into the next slot, if that slot is free. */
  function Place(o: Oracle, st: Store, entity: Entity): Store {
    st.(loaded := st.loaded[o.slot(st.made) := entity], made := st.made + 1)
  }

  predicate SlotFree(o: Oracle, st: Store) {
    o.slot(st.made) !in st.loaded && o.slot(st.made) !in st.hierarchies
  }

  function CreatePrimaryIn(o: Oracle, st: Store, hierarchy: u32, v: SensitiveCreate, template: Public)
    : (Store, Answered)
  {
    if hierarchy !in st.hierarchies then (st, No(RC_HANDLE))
    else if !SensitiveFits(v) then (st, No(RC_SIZE))
    else if !OriginFits(v, template) then (st, No(RC_ATTRIBUTES))
    else if !SlotFree(o, st) then (st, No(RC_OBJECT_MEMORY))
    else
      var area := o.area(st.made, template.Normalized());
      (Place(o, st, Object(o.name(area), v, template)),
       Ok(Primary(CreatePrimaryResult(o.slot(st.made), o.name(area), area))))
  }

  function CreateIn(o: Oracle, st: Store, parent: u32, v: SensitiveCreate, template: Public): (Store, Answered) {
    if parent !in st.loaded then (st, No(RC_HANDLE))
    else if !st.loaded[parent].isParent then (st, No(RC_TYPE))
    else if !SensitiveFits(v) then (st, No(RC_SIZE))
    else if !OriginFits(v, template) then (st, No(RC_ATTRIBUTES))
    else if o.private(st.made) in st.blobs then (st, No(RC_FAILURE))
    else
      var private, area := o.private(st.made), o.area(st.made, template.Normalized());
      var blob := Blob(st.loaded[parent].name, area, Object(o.name(area), v, template));
      (st.(blobs := st.blobs[private := blob], made := st.made + 1), Ok(Created(CreateResult(private, area))))
  }

  function LoadIn(o: Oracle, st: Store, parent: u32, private: bytes, public: bytes): (Store, Answered) {
    if parent !in st.loaded then (st, No(RC_HANDLE))
    else if !st.loaded[parent].isParent then (st, No(RC_TYPE))
    else if private !in st.blobs || st.blobs[private].parentName != st.loaded[parent].name
            || st.blobs[private].public != public
    then (st, No(RC_INTEGRITY))
    else if !SlotFree(o, st) then (st, No(RC_OBJECT_MEMORY))
    else
      var entity := st.blobs[private].entity;
      (Place(o, st, entity), Ok(Loaded(LoadResult(o.slot(st.made), entity.name))))
  }

  function UnsealIn(st: Store, item: u32): Answered {
    if item !in st.loaded then No(RC_HANDLE)
    else if !st.loaded[item].isSealed then No(RC_TYPE)
    else Ok(Unsealed(st.loaded[item].data))
  }

  function FlushIn(st: Store, item: u32): (Store, Answered) {
    if item !in st.loaded then (st, No(RC_HANDLE)) else (st.(loaded := st.loaded - {item}), Ok(Flushed))
  }

  function Perform(o: Oracle, st: Store, op: Op): (Store, Answered) {
    match op
    case OpCreatePrimary(hierarchy, v, template) => CreatePrimaryIn(o, st, hierarchy, v, template)
    case OpCreate(parent, v, template) => CreateIn(o, st, parent, v, template)
    case OpLoad(parent, private, public) => LoadIn(o, st, parent, private, public)
    case OpUnseal(item) => (st, UnsealIn(st, item))
    case OpFlush(item) => FlushIn(st, item)
  }

  /** A direct call of the store by somebody who presents an auth value or none. */
  function Invoke(o: Oracle, st: Store, op: Op, presented: Option<bytes>): (Store, Answered) {
    if op.NeedsAuth() && presented.None? then (st, No(RC_AUTH_MISSING))
    else if op.NeedsAuth() && presented.value != AuthOf(st, op.Handle()) then (st, No(RC_AUTH_FAIL))
    else Perform(o, st, op)
  }

  // ---------- the store behind the wire ----------

  function DecodeCreation(code: u32, handle: u32, params: bytes): Option<Op> {
    var p := CREATE_PARAMS.read(params);
    if p.Stuck? || p.rest != [] then None
    else if code == CC_CREATE then Some(OpCreate(handle, p.value.0, p.value.1.0))
    else Some(OpCreatePrimary(handle, p.value.0, p.value.1.0))
  }

  function DecodeLoad(handle: u32, params: bytes): Option<Op> {
    var p := ReadCreated(params);
    if p.Stuck? || p.rest != [] then None else Some(OpLoad(handle, p.value.private, p.value.public))
  }

  function DecodeOp(code: u32, handles: seq<u32>, params: bytes): Option<Op> {
    if handles == [] then
      if code == CC_FLUSH_CONTEXT && FlushedHandle(params).Some?
      then Some(OpFlush(FlushedHandle(params).value))
      else None
    else if |handles| != 1 then None
    else if code == CC_CREATE_PRIMARY || code == CC_CREATE then DecodeCreation(code, handles[0], params)
    else if code == CC_LOAD then DecodeLoad(handles[0], params)
    else if code == CC_UNSEAL && params == [] then Some(OpUnseal(handles[0]))
    else None
  }

  function CreationBytes(x: Creation): bytes {
    BufferBytes(x.data) + (BufferBytes(x.hash) + (U16Bytes(x.tag) + (U32Bytes(x.hierarchy) + BufferBytes(x.digest))))
  }

  function EncodeValue(x: Creation, v: Value): Answer {
    match v
    case Primary(r) =>
      Done([r.handle], BufferBytes(r.public) + (CreationBytes(x) + BufferBytes(r.name)))
    case Created(r) => Done([], BufferBytes(r.private) + BufferBytes(r.public))
    case Loaded(r) => Done([r.handle], BufferBytes(r.name))
    case Unsealed(data) => Done([], BufferBytes(data))
    case Flushed => Done([], [])
  }

  function HandleCount(code: u32): nat {
    if code == CC_START_AUTH_SESSION then 2
    else if code == CC_CREATE_PRIMARY || code == CC_CREATE || code == CC_LOAD || code == CC_UNSEAL then 1
    else 0
  }

  function ExecuteOp(o: Oracle, st: Store, authorized: bool, op: Op): (Store, Answer) {
    if op.NeedsAuth() && !authorized then (st, Refused(RC_AUTH_MISSING))
    else
      match Perform(o, st, op)
      case (after, Ok(v)) => (after, EncodeValue(o.creation(st.made), v))
      case (_, No(rc)) => (st, Refused(rc))
  }

  function Execute(o: Oracle, st: Store, authorized: bool, code: u32, handles: seq<u32>, params: bytes)
    : (Store, Answer)
  {
    match DecodeOp(code, handles, params)
    case None => (st, Refused(RC_COMMAND_CODE))
    case Some(op) => ExecuteOp(o, st, authorized, op)
  }

  function StoreDevice(o: Oracle): Device<Store> {
    Device(HandleCount, NameOf, AuthOf,
           (st: Store, authorized: bool, code: u32, handles: seq<u32>, params: bytes) =>
             Execute(o, st, authorized, code, handles, params))
  }

  // ---------- what a store remembers ----------

  /** The blobs of a store only grow, and a loaded object stays what it is until
      it is flushed. */
  lemma PerformKeeps(o: Oracle, st: Store, op: Op)
    ensures var after := Perform(o, st, op).0;
      && (forall p | p in st.blobs :: p in after.blobs && after.blobs[p] == st.blobs[p])
      && (forall h | h in st.loaded && op != OpFlush(h) :: h in after.loaded && after.loaded[h] == st.loaded[h])
      && after.hierarchies == st.hierarchies
  {
  }

  /** A refused command changes nothing. */
  lemma RefusedChangesNothing(o: Oracle, st: Store, op: Op)
    ensures Perform(o, st, op).1.No? ==> Perform(o, st, op).0 == st
  {
  }
}
