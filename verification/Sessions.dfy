/** HMAC authorization sessions: keys, the rolling nonces, signing and checking. */
module Sessions {
  import opened Basics
  import opened Bits
  import opened Constants
  import opened Marshal
  import opened CryptoCore

  /** The fields of a session, as a value. */
  datatype SessionState = SessionState(
    handle: u32, alg: u16, attributes: byte, key: bytes,
    nonceTpm: bytes, nonceCaller: bytes, boundName: bytes)

  datatype AuthCommand = AuthCommand(handle: u32, nonceCaller: bytes, attributes: byte, hmac: bytes)
  datatype AuthResponse = AuthResponse(nonceTpm: bytes, attributes: byte, hmac: bytes)

  const ATH: bytes := [0x41, 0x54, 0x48]

  /** The Name of a permanent or PCR handle is the handle itself. */
  function PermanentName(handle: u32): bytes {
    U32Bytes(handle)
  }

  /** Read as a number, most significant octet first, the Name of a handle is
      the handle. */
  lemma PermanentNameIsHandle(h: u32)
    ensures |PermanentName(h)| == 4 && BigEndian(PermanentName(h)) == h
  {
    U32ValueInverts(h);
  }

  lemma Halves(h: nat)
    ensures h / 0x1_0000 / 0x100 == h / 0x100_0000
    ensures h % 0x1_0000 / 0x100 == h / 0x100 % 0x100
    ensures h % 0x1_0000 % 0x100 == h % 0x100
  {
    var q, r := h / 0x1_0000, h % 0x1_0000;
    var a, b := r / 0x100, r % 0x100;
    assert h / 0x100 == q * 0x100 + a;
    assert h == (q * 0x100 + a) * 0x100 + b;
  }

  /** Those are the four octets of the handle. */
  lemma PermanentNameOctets(h: u32)
    ensures PermanentName(h) == [h / 0x100_0000, h / 0x1_0000 % 0x100, h / 0x100 % 0x100, h % 0x100]
  {
    Halves(h);
    assert U16Bytes(h / 0x1_0000) == [h / 0x100_0000, h / 0x1_0000 % 0x100];
    assert U16Bytes(h % 0x1_0000) == [h / 0x100 % 0x100, h % 0x100];
  }

  /** sessionKey || authValue, without authValue for the bind entity itself. */
  function AuthKey(key: bytes, boundName: bytes, authValue: bytes, name: bytes): bytes {
    if boundName != [] && boundName == name then key else key + authValue
  }

  /** pHash || nonceNewer || nonceOlder || attributes. */
  function AuthMessage(pHash: bytes, newer: bytes, older: bytes, attributes: byte): bytes {
    pHash + newer + older + [attributes]
  }

  function SessionKey(c: Crypto, alg: u16, nonceTpm: bytes, nonceCaller: bytes, bindAuth: bytes, salt: bytes)
    : Result<bytes>
  {
    if !IsHash(alg) then Failure(Usage)
    else if bindAuth == [] && salt == [] then Success([])
    else KdfaValue(c, alg, KdfInput(bindAuth + salt, ATH, nonceTpm, nonceCaller), SizeOf(alg) * 8)
  }

  function SignedEntry(c: Crypto, s: SessionState, cpHash: bytes, authValue: bytes, name: bytes): AuthCommand {
    var message := AuthMessage(cpHash, s.nonceCaller, s.nonceTpm, s.attributes);
    AuthCommand(s.handle, s.nonceCaller, s.attributes,
                c.hmac(s.alg, AuthKey(s.key, s.boundName, authValue, name), message))
  }

  function ExpectedTag(c: Crypto, s: SessionState, rpHash: bytes, authValue: bytes, name: bytes,
                       nonceTpm: bytes, attributes: byte): bytes
  {
    c.hmac(s.alg, AuthKey(s.key, s.boundName, authValue, name),
           AuthMessage(rpHash, nonceTpm, s.nonceCaller, attributes))
  }

  /** The session after a checked reply, or why the reply is refused. */
  function Checked(c: Crypto, s: SessionState, rpHash: bytes, authValue: bytes, name: bytes, resp: AuthResponse)
    : Result<SessionState>
  {
    if !IsHash(s.alg) then Failure(Usage)
    else if ExpectedTag(c, s, rpHash, authValue, name, resp.nonceTpm, resp.attributes) != resp.hmac
    then Failure(Protocol)
    else Success(s.(nonceTpm := resp.nonceTpm))
  }

  class Session {
    var handle: u32
    var alg: u16
    var attributes: byte
    var key: bytes
    var nonceTpm: bytes
    var nonceCaller: bytes
    var boundName: bytes

    function State(): SessionState
      reads this
    {
      SessionState(handle, alg, attributes, key, nonceTpm, nonceCaller, boundName)
    }

    constructor (s: SessionState)
      ensures State() == s
    {
      handle, alg, attributes, key := s.handle, s.alg, s.attributes, s.key;
      nonceTpm, nonceCaller, boundName := s.nonceTpm, s.nonceCaller, s.boundName;
    }

    /** Builds a session from what TPM2_StartAuthSession returned. */
    static method New(c: Crypto, handle: u32, alg: u16, nonceTpm: bytes, nonceCaller: bytes,
                      attributes: byte, bindAuth: bytes, bindName: bytes, salt: bytes)
      returns (r: Result<Session>)
      ensures r.Success? <==> SessionKey(c, alg, nonceTpm, nonceCaller, bindAuth, salt).Success?
      ensures r.Failure? ==> r.error == SessionKey(c, alg, nonceTpm, nonceCaller, bindAuth, salt).error
      ensures r.Success? ==> fresh(r.value) && r.value.State() == SessionState(handle, alg, attributes,
        SessionKey(c, alg, nonceTpm, nonceCaller, bindAuth, salt).value, nonceTpm, nonceCaller, bindName)
    {
      var size :- DigestSize(alg);
      var sessionKey: bytes := [];
      if bindAuth != [] || salt != [] {
        sessionKey :- Kdfa(c, alg, bindAuth + salt, ATH, nonceTpm, nonceCaller, size * 8);
      }
      var s := new Session(SessionState(handle, alg, attributes, sessionKey, nonceTpm, nonceCaller, bindName));
      return Success(s);
    }

    method HmacKey(authValue: bytes, name: bytes) returns (k: bytes)
      ensures k == AuthKey(key, boundName, authValue, name)
    {
      var bound := boundName != [] && boundName == name;
      k := key;
      if !bound {
        k := k + authValue;
      }
    }

    /** Signs a command; the nonce is recorded even when signing fails. */
    method CommandAuth(c: Crypto, cpHash: bytes, authValue: bytes, name: bytes, nonce: bytes)
      returns (r: Result<AuthCommand>)
      modifies this
      ensures State() == old(State()).(nonceCaller := nonce)
      ensures r == if IsHash(alg) then Success(SignedEntry(c, State(), cpHash, authValue, name))
                   else Failure(Usage)
    {
      nonceCaller := nonce;
      var k := HmacKey(authValue, name);
      Flatten6(cpHash, nonceCaller, nonceTpm, [attributes], [], []);
      var hmac :- HmacParts(c, alg, k, [cpHash, nonceCaller, nonceTpm, [attributes]]);
      return Success(AuthCommand(handle, nonceCaller, attributes, hmac));
    }

    /** Checks a reply: accepted exactly when the received HMAC equals the
        expected one, and only then is the nonce rolled. */
    method VerifyResponse(c: Crypto, rpHash: bytes, authValue: bytes, name: bytes, resp: AuthResponse)
      returns (r: Result<()>)
      modifies this
      ensures var checked := Checked(c, old(State()), rpHash, authValue, name, resp);
        && State() == (if checked.Success? then checked.value else old(State()))
        && r == if checked.Success? then Success(()) else Failure(checked.error)
    {
      var k := HmacKey(authValue, name);
      Flatten6(rpHash, resp.nonceTpm, nonceCaller, [resp.attributes], [], []);
      var expected :- HmacParts(c, alg, k, [rpHash, resp.nonceTpm, nonceCaller, [resp.attributes]]);
      if |expected| != |resp.hmac| {
        return Failure(Protocol);
      }
      var same := CtEq(expected, resp.hmac);
      if !same {
        return Failure(Protocol);
      }
      nonceTpm := resp.nonceTpm;
      return Success(());
    }

    /** A nonce of the digest length, cut from what the random source gives. */
    method FreshNonce(entropy: bytes) returns (r: Result<bytes>)
      requires IsHash(alg) ==> |entropy| == SizeOf(alg)
      ensures r == if IsHash(alg) then Success(entropy) else Failure(Usage)
    {
      var n :- DigestSize(alg);
      assert entropy[..n] == entropy;
      return Success(entropy[..n]);
    }
  }

  /** Accumulates the differences of two equally long byte strings. */
  method CtEq(a: bytes, b: bytes) returns (equal: bool)
    requires |a| == |b|
    ensures equal <==> a == b
  {
    var diff := 0;
    for i := 0 to |a|
      invariant diff == 0 <==> a[..i] == b[..i]
    {
      OrZero(diff, Xor(a[i], b[i]));
      XorZero(a[i], b[i]);
      assert a[..i + 1] == a[..i] + [a[i]] && b[..i + 1] == b[..i] + [b[i]];
      diff := Or(diff, Xor(a[i], b[i]));
    }
    assert a[..|a|] == a && b[..|b|] == b;
    equal := diff == 0;
  }

  /** A session key is empty or exactly one digest long. */
  lemma SessionKeyLength(c: Crypto, alg: u16, nonceTpm: bytes, nonceCaller: bytes, bindAuth: bytes, salt: bytes)
    requires IsHash(alg)
    ensures var k := SessionKey(c, alg, nonceTpm, nonceCaller, bindAuth, salt);
      k.Success? && |k.value| == if bindAuth == [] && salt == [] then 0 else SizeOf(alg)
  {
  }

  /** A derived session key is one HMAC, under the bind auth value and the salt,
      of the number 1, the label ATH and a zero octet, nonceTPM, the caller's first
      nonce and the key's length in bits. */
  lemma SessionKeyIsHmac(c: Crypto, alg: u16, nonceTpm: bytes, nonceCaller: bytes, bindAuth: bytes, salt: bytes)
    requires IsHash(alg) && bindAuth + salt != []
    ensures SessionKey(c, alg, nonceTpm, nonceCaller, bindAuth, salt)
         == Success(c.hmac(alg, bindAuth + salt, [0, 0, 0, 1] + [0x41, 0x54, 0x48] + [0] + nonceTpm + nonceCaller
                                                + U32Bytes(8 * SizeOf(alg))))
  {
    KdfaOfOneBlock(c, alg, KdfInput(bindAuth + salt, ATH, nonceTpm, nonceCaller));
    assert U32Bytes(1) == [0, 0, 0, 1];
  }

  /** With a digest-sized hash and one nonce of known length, the authenticated
      bytes determine all four fields. */
  lemma MessageDetermines(p: bytes, n: bytes, o: bytes, a: byte, p': bytes, n': bytes, o': bytes, a': byte)
    requires AuthMessage(p, n, o, a) == AuthMessage(p', n', o', a')
    requires |p| == |p'| && (|n| == |n'| || |o| == |o'|)
    ensures p == p' && n == n' && o == o' && a == a'
  {
    var m, m' := AuthMessage(p, n, o, a), AuthMessage(p', n', o', a');
    assert |m| == |p| + |n| + |o| + 1 && |m'| == |p'| + |n'| + |o'| + 1;
    assert m[..|p|] == p && m'[..|p|] == p';
    assert m[|p|..|p| + |n|] == n && m'[|p|..|p| + |n|] == n';
    assert m[|p| + |n|..|m| - 1] == o && m'[|p| + |n|..|m| - 1] == o';
    assert m[|m| - 1] == a && m'[|m| - 1] == a';
  }
}
