/**
 Big-endian marshalling: the encoders, the parsers that undo them, the
 bounds-checked Reader and the growable output buffer.

 A parser is specified as a function from the unread bytes to either a value
 and the bytes still unread, or an error and the bytes still unread.  A failing
 parser may have consumed some bytes, and the specification records which.
 */
module Marshal {
  import opened Basics

  // ---------- encoders ----------

  function U16Bytes(v: u16): (b: bytes)
    ensures |b| == 2
  {
    [v / 0x100, v % 0x100]
  }

  /** The high half, then the low half, each big-endian. */
  function U32Bytes(v: u32): (b: bytes)
    ensures |b| == 4
  {
    U16Bytes(v / 0x1_0000) + U16Bytes(v % 0x1_0000)
  }

  /** The number a byte string denotes, most significant byte first. */
  function BigEndian(b: bytes): nat {
    if b == [] then 0 else BigEndian(b[..|b| - 1]) * 0x100 + b[|b| - 1]
  }

  lemma BigEndian2(b: bytes)
    requires |b| == 2
    ensures BigEndian(b) == (b[0] as int) * 0x100 + b[1] < 0x1_0000
  {
    assert b[..1] == [b[0]] && b[..1][..0] == [];
    assert BigEndian(b[..1]) == b[0];
  }

  lemma BigEndian4(b: bytes)
    requires |b| == 4
    ensures BigEndian(b) == BigEndian(b[..2]) * 0x1_0000 + BigEndian(b[2..]) < 0x1_0000_0000
  {
    assert b[..3][..2] == b[..2];
    assert BigEndian(b) == BigEndian(b[..3]) * 0x100 + b[3];
    assert BigEndian(b[..3]) == BigEndian(b[..2]) * 0x100 + b[2];
    BigEndian2(b[..2]);
    BigEndian2(b[2..]);
  }

  function U16Value(b: bytes): u16
    requires |b| == 2
  {
    BigEndian2(b);
    BigEndian(b)
  }

  function U32Value(b: bytes): u32
    requires |b| == 4
  {
    BigEndian4(b);
    BigEndian(b)
  }

  /** The truncating cast from a length to a 32-bit field. */
  function LowU32(n: nat): u32 {
    n % TWO_32
  }

  /** A TPM2B: a 16-bit length and the bytes; refused above 65535 bytes. */
  function Tpm2b(data: bytes): Result<bytes> {
    if |data| <= U16_MAX then Success(U16Bytes(|data|) + data) else Failure(Malformed)
  }

  /** A Buffer field: an oversized one is dropped whole, length prefix included. */
  function BufferBytes(data: bytes): bytes {
    if Tpm2b(data).Success? then Tpm2b(data).value else []
  }

  // ---------- parsers ----------

  datatype Parsed<+T> = Parsed(value: T, rest: bytes) | Stuck(error: Error, rest: bytes) {
    predicate IsFailure() {
      Stuck?
    }

    function PropagateFailure<U>(): Parsed<U>
      requires Stuck?
    {
      Stuck(error, rest)
    }

    function Extract(): (T, bytes)
      requires Parsed?
    {
      (value, rest)
    }

    function ToResult(): Result<T> {
      if Parsed? then Success(value) else Failure(error)
    }
  }

  function ReadBytes(n: nat, s: bytes): Parsed<bytes> {
    if |s| < n then Stuck(Malformed, s) else Parsed(s[..n], s[n..])
  }

  function ReadU8(s: bytes): Parsed<byte> {
    var (b, s) :- ReadBytes(1, s);
    Parsed(b[0], s)
  }

  function ReadU16(s: bytes): Parsed<u16> {
    var (b, s) :- ReadBytes(2, s);
    Parsed(U16Value(b), s)
  }

  function ReadU32(s: bytes): Parsed<u32> {
    var (b, s) :- ReadBytes(4, s);
    Parsed(U32Value(b), s)
  }

  function ReadTpm2b(s: bytes): Parsed<bytes> {
    var (n, s) :- ReadU16(s);
    ReadBytes(n, s)
  }

  lemma U16ValueInverts(v: u16)
    ensures U16Value(U16Bytes(v)) == v
  {
    BigEndian2(U16Bytes(v));
  }

  lemma U32ValueInverts(v: u32)
    ensures U32Value(U32Bytes(v)) == v
  {
    var b := U32Bytes(v);
    BigEndian4(b);
    assert b[..2] == U16Bytes(v / 0x1_0000) && b[2..] == U16Bytes(v % 0x1_0000);
    U16ValueInverts(v / 0x1_0000);
    U16ValueInverts(v % 0x1_0000);
  }

  lemma U16BytesInverts(b: bytes)
    requires |b| == 2
    ensures U16Bytes(U16Value(b)) == b
  {
    BigEndian2(b);
  }

  lemma U32BytesInverts(b: bytes)
    requires |b| == 4
    ensures U32Bytes(U32Value(b)) == b
  {
    var hi, lo := U16Value(b[..2]), U16Value(b[2..]);
    BigEndian4(b);
    assert U32Value(b) / 0x1_0000 == hi && U32Value(b) % 0x1_0000 == lo;
    U16BytesInverts(b[..2]);
    U16BytesInverts(b[2..]);
  }

  lemma ReadU16Inverts(v: u16, post: bytes)
    ensures ReadU16(U16Bytes(v) + post) == Parsed(v, post)
  {
    ReadBytesInverts(U16Bytes(v), post);
    U16ValueInverts(v);
  }

  lemma ReadU16Canonical(s: bytes)
    requires ReadU16(s).Parsed?
    ensures s == U16Bytes(ReadU16(s).value) + ReadU16(s).rest
  {
    U16BytesInverts(s[..2]);
  }

  lemma ReadU32Inverts(v: u32, post: bytes)
    ensures ReadU32(U32Bytes(v) + post) == Parsed(v, post)
  {
    ReadBytesInverts(U32Bytes(v), post);
    U32ValueInverts(v);
  }

  lemma ReadU32Canonical(s: bytes)
    requires ReadU32(s).Parsed?
    ensures s == U32Bytes(ReadU32(s).value) + ReadU32(s).rest
  {
    U32BytesInverts(s[..4]);
  }

  lemma ReadBytesInverts(data: bytes, post: bytes)
    ensures ReadBytes(|data|, data + post) == Parsed(data, post)
  {
    assert (data + post)[|data|..] == post;
  }

  lemma U32BytesInjective(v: u32, w: u32)
    requires U32Bytes(v) == U32Bytes(w)
    ensures v == w
  {
    ReadU32Inverts(v, []);
    ReadU32Inverts(w, []);
  }

  lemma ReadTpm2bInverts(data: bytes, post: bytes)
    requires |data| <= U16_MAX
    ensures ReadTpm2b(BufferBytes(data) + post) == Parsed(data, post)
  {
    assert BufferBytes(data) + post == U16Bytes(|data|) + (data + post);
    ReadU16Inverts(|data|, data + post);
    ReadBytesInverts(data, post);
  }

  lemma ReadTpm2bCanonical(s: bytes)
    requires ReadTpm2b(s).Parsed?
    ensures |ReadTpm2b(s).value| <= U16_MAX
    ensures s == BufferBytes(ReadTpm2b(s).value) + ReadTpm2b(s).rest
  {
    ReadU16Canonical(s);
  }

  // ---------- growable output ----------

  /** The byte vector every marshal routine appends to. */
  class OutBuffer {
    var data: bytes

    constructor ()
      ensures data == []
    {
      data := [];
    }

    method Push(b: byte)
      modifies this
      ensures data == old(data) + [b]
    {
      data := data + [b];
    }

    method Extend(b: bytes)
      modifies this
      ensures data == old(data) + b
    {
      data := data + b;
    }

    method MarshalU16(v: u16)
      modifies this
      ensures data == old(data) + U16Bytes(v)
    {
      Extend(U16Bytes(v));
    }

    method MarshalU32(v: u32)
      modifies this
      ensures data == old(data) + U32Bytes(v)
    {
      Extend(U32Bytes(v));
    }

    /** Appends a TPM2B, or leaves the vector alone when the data is too long. */
    method MarshalTpm2b(b: bytes) returns (r: Result<()>)
      modifies this
      ensures data == old(data) + BufferBytes(b)
      ensures r == if |b| <= U16_MAX then Success(()) else Failure(Malformed)
    {
      if |b| > U16_MAX {
        return Failure(Malformed);
      }
      MarshalU16(|b|);
      Extend(b);
      return Success(());
    }
  }

  // ---------- bounds-checked input ----------

  /** A cursor over a byte buffer that refuses to run off the end. */
  class Reader {
    const buf: bytes
    var pos: nat

    ghost predicate Valid()
      reads this
    {
      pos <= |buf|
    }

    ghost function Unread(): bytes
      reads this
      requires Valid()
    {
      buf[pos..]
    }

    /** The reader stands where the parse p left off, and r is what p produced. */
    ghost predicate Yields<T>(p: Parsed<T>, r: Result<T>)
      reads this
    {
      Valid() && Unread() == p.rest && r == p.ToResult()
    }

    constructor (buf: bytes)
      ensures Valid() && this.buf == buf && Unread() == buf
    {
      this.buf := buf;
      pos := 0;
    }

    function Remaining(): nat
      reads this
      requires Valid()
      ensures Remaining() == |Unread()|
    {
      |buf| - pos
    }

    method Take(n: nat) returns (r: Result<bytes>)
      requires Valid()
      modifies this
      ensures Yields(ReadBytes(n, old(Unread())), r)
    {
      if Remaining() < n {
        return Failure(Malformed);
      }
      r := Success(buf[pos..pos + n]);
      assert buf[pos..pos + n] == Unread()[..n];
      pos := pos + n;
    }

    method U8() returns (r: Result<byte>)
      requires Valid()
      modifies this
      ensures Yields(ReadU8(old(Unread())), r)
    {
      var b :- Take(1);
      return Success(b[0]);
    }

    method U16() returns (r: Result<u16>)
      requires Valid()
      modifies this
      ensures Yields(ReadU16(old(Unread())), r)
    {
      var b :- Take(2);
      return Success(U16Value(b));
    }

    method U32() returns (r: Result<u32>)
      requires Valid()
      modifies this
      ensures Yields(ReadU32(old(Unread())), r)
    {
      var b :- Take(4);
      return Success(U32Value(b));
    }

    method Tpm2b() returns (r: Result<bytes>)
      requires Valid()
      modifies this
      ensures Yields(ReadTpm2b(old(Unread())), r)
    {
      var n :- U16();
      r := Take(n);
    }
  }
}
