/**
 Whole frames, octet by octet, and the code points in them: what goes out on the
 wire, with no name of a constant in sight.
 */
module WireImages {
  import opened Basics
  import opened Bits
  import opened Constants
  import opened Marshal
  import opened Codecs
  import opened Structures
  import opened CryptoCore
  import opened ResponseCodes
  import opened Dispatcher
  import opened ReferenceTpm
  import opened Sessions
  import opened SessionCommands
  import opened ObjectCommands
  import opened PcrCommands

  lemma SmallU32(n: u32)
    requires n < 0x1_0000
    ensures U32Bytes(n) == [0, 0, n / 0x100, n % 0x100]
  {
    assert U16Bytes(n / 0x1_0000) == [0, 0];
  }

  lemma OneOctet(n: byte)
    ensures U32Bytes(n) == [0, 0, 0, n]
  {
    SmallU32(n);
  }

  lemma SmallLow(n: nat)
    requires n < 0x1_0000
    ensures LowU32(n) == n
  {
  }

  lemma Tags()
    ensures U16Bytes(ST_NO_SESSIONS) == [0x80, 0x01] && U16Bytes(ST_SESSIONS) == [0x80, 0x02]
  {
  }

  /** Tag, size and command code, then the body. */
  lemma FrameHead(call: Call, area: Option<bytes>, body: bytes, n: u32, size: bytes, code: bytes)
    requires Body(call, area) == body && 10 + |body| == n < 0x1_0000
    requires U32Bytes(n) == size && U32Bytes(call.code) == code
    ensures Frame(call, area) == [0x80, if area.Some? then 0x02 else 0x01] + (size + (code + body))
  {
    SmallLow(|body|);
    SmallLow(n);
    Tags();
  }

  lemma OneOfList<T>(enc: T -> bytes, x: T)
    ensures ListBytes(enc, [x]) == enc(x)
  {
    assert [x][1..] == [] && ListBytes(enc, [x]) == enc(x) + ListBytes(enc, [x][1..]);
  }

  lemma OneHandle(h: u32)
    ensures HandleBytes([h]) == HandleOctets(h)
  {
    OneOfList(U32Bytes, h);
    PermanentNameOctets(h);
  }

  /** TPM2_FlushContext: the handle travels as the parameter. */
  lemma FlushImage(handle: u32)
    ensures Frame(FlushCall(handle), None)
         == [0x80, 0x01] + ([0x00, 0x00, 0x00, 0x0E] + ([0x00, 0x00, 0x01, 0x65] + HandleOctets(handle)))
  {
    PermanentNameOctets(handle);
    assert Body(FlushCall(handle), None) == U32Bytes(handle);
    SmallU32(0x0E);
    SmallU32(0x165);
    FrameHead(FlushCall(handle), None, HandleOctets(handle), 0x0E, [0, 0, 0, 0x0E], [0, 0, 0x01, 0x65]);
  }

  /** TPM2_PCR_Read of PCR 7 in the SHA-256 bank. */
  lemma PcrReadImage()
    ensures SelectsOne(PcrSelection(0x000B, [0x80, 0x00, 0x00]), 0x000B, 7)
    ensures Frame(PcrReadCall([PcrSelection(0x000B, [0x80, 0x00, 0x00])]), None)
         == [0x80, 0x01] + ([0x00, 0x00, 0x00, 0x14] + ([0x00, 0x00, 0x01, 0x7E]
            + ([0x00, 0x00, 0x00, 0x01] + [0x00, 0x0B, 0x03, 0x80, 0x00, 0x00])))
  {
    var p := PcrSelection(0x000B, [0x80, 0x00, 0x00]);
    var call := PcrReadCall([p]);
    assert Pow2(7) == 0x80 by { SmallPowers(); }
    OnlyOne(p.select, 7);
    assert SelectionBytes(p) == [0x00, 0x0B, 0x03, 0x80, 0x00, 0x00];
    OneOfList(SelectionBytes, p);
    SmallU32(1);
    assert Body(call, None) == call.params;
    SmallU32(0x14);
    SmallU32(0x17E);
    FrameHead(call, None, call.params, 0x14, [0, 0, 0, 0x14], [0, 0, 0x01, 0x7E]);
  }

  lemma StartParams(nonceCaller: bytes)
    requires |nonceCaller| == 32
    ensures StartBytes(0x000B, nonceCaller)
         == ([0x00, 0x20] + nonceCaller) + ([0x00, 0x00] + ([0x00] + ([0x00, 0x10] + [0x00, 0x0B])))
  {
    assert BufferBytes(nonceCaller) == [0x00, 0x20] + nonceCaller && BufferBytes([]) == [0x00, 0x00];
    assert SymDefBytes(NO_CIPHER) == [0x00, 0x10] && U16Bytes(0x000B) == [0x00, 0x0B];
  }

  /** TPM2_StartAuthSession with SHA-256: two null handles, the nonce, no salt, an
      HMAC session, no cipher, the hash. */
  lemma StartImage(nonceCaller: bytes)
    requires |nonceCaller| == 32
    ensures Frame(StartCall(0x000B, nonceCaller), None)
         == [0x80, 0x01] + ([0x00, 0x00, 0x00, 0x3B] + ([0x00, 0x00, 0x01, 0x76]
            + (([0x40, 0x00, 0x00, 0x07] + [0x40, 0x00, 0x00, 0x07])
            + (([0x00, 0x20] + nonceCaller) + ([0x00, 0x00] + ([0x00] + ([0x00, 0x10] + [0x00, 0x0B])))))))
  {
    var call := StartCall(0x000B, nonceCaller);
    PermanentNameOctets(0x4000_0007);
    OneHandle(0x4000_0007);
    StartParams(nonceCaller);
    assert call.handles[1..] == [0x4000_0007];
    assert HandleBytes(call.handles) == U32Bytes(0x4000_0007) + HandleBytes([0x4000_0007]);
    assert Body(call, None) == HandleBytes(call.handles) + call.params;
    SmallU32(0x3B);
    SmallU32(0x176);
    FrameHead(call, None, HandleBytes(call.handles) + call.params, 0x3B, [0, 0, 0, 0x3B], [0, 0, 0x01, 0x76]);
  }

  /** The authorization entry of a password: the reserved handle, no nonce, the
      session to be continued, and the password in the clear. */
  function PasswordOctets(pw: bytes): bytes
    requires |pw| <= U16_MAX
  {
    [0x40, 0x00, 0x00, 0x09] + ([0x00, 0x00] + ([0x01] + ([|pw| / 0x100, |pw| % 0x100] + pw)))
  }

  lemma PasswordArea(c: Crypto, call: Call, pw: bytes)
    requires |pw| <= U16_MAX
    ensures Authorize(c, call, PasswordView(pw), []) == Success((PasswordView(pw), Some(PasswordOctets(pw))))
  {
    assert U32Bytes(0x4000_0009) == [0x40, 0x00, 0x00, 0x09] && BufferBytes([]) == [0x00, 0x00];
  }

  lemma PasswordBody(call: Call, pw: bytes, h: u32)
    requires call.handles == [h] && |pw| < 0x80
    ensures Body(call, Some(PasswordOctets(pw)))
         == HandleOctets(h) + ([0x00, 0x00, 0x00, 9 + |pw|] + PasswordOctets(pw)) + call.params
  {
    OneHandle(h);
    SmallLow(9 + |pw|);
    OneOctet(9 + |pw|);
  }

  lemma NoParams(b: bytes)
    ensures b + [] == b
  {
  }

  /** TPM2_Unseal by password: no parameters. */
  lemma UnsealImage(c: Crypto, item: u32, name: bytes, pw: bytes)
    requires |pw| < 0x80
    ensures var call := UnsealCall(item, name);
      var r := Authorize(c, call, PasswordView(pw), []);
      r.Success? && Frame(call, r.value.1)
      == [0x80, 0x02] + ([0x00, 0x00, 0x00, 27 + |pw|] + ([0x00, 0x00, 0x01, 0x5E]
         + (HandleOctets(item) + ([0x00, 0x00, 0x00, 9 + |pw|] + PasswordOctets(pw)))))
  {
    var call := UnsealCall(item, name);
    PasswordArea(c, call, pw);
    PasswordBody(call, pw, item);
    var body := HandleOctets(item) + ([0x00, 0x00, 0x00, 9 + |pw|] + PasswordOctets(pw));
    NoParams(body);
    OneOctet(27 + |pw|);
    SmallU32(0x15E);
    FrameHead(call, Some(PasswordOctets(pw)), body, 27 + |pw|, [0, 0, 0, 27 + |pw|], [0, 0, 0x01, 0x5E]);
  }

  /** TPM2_PCR_Extend by password, with one SHA-256 digest. */
  lemma PcrExtendImage(c: Crypto, pcr: u32, digest: bytes, pw: bytes)
    requires |pw| < 0x80 && |digest| == 32
    ensures var call := PcrExtendCall(pcr, [BankDigest(0x000B, digest)]);
      var r := Authorize(c, call, PasswordView(pw), []);
      r.Success? && Frame(call, r.value.1)
      == [0x80, 0x02] + ([0x00, 0x00, 0x00, 65 + |pw|] + ([0x00, 0x00, 0x01, 0x82]
         + (HandleOctets(pcr) + ([0x00, 0x00, 0x00, 9 + |pw|] + PasswordOctets(pw))
            + ([0x00, 0x00, 0x00, 0x01] + ([0x00, 0x0B] + digest)))))
  {
    var d := BankDigest(0x000B, digest);
    var call := PcrExtendCall(pcr, [d]);
    OneOfList(BankDigestBytes, d);
    SmallU32(1);
    assert BankDigestBytes(d) == [0x00, 0x0B] + digest;
    PasswordArea(c, call, pw);
    PasswordBody(call, pw, pcr);
    OneOctet(65 + |pw|);
    SmallU32(0x182);
    var body := HandleOctets(pcr) + ([0x00, 0x00, 0x00, 9 + |pw|] + PasswordOctets(pw)) + call.params;
    FrameHead(call, Some(PasswordOctets(pw)), body, 65 + |pw|, [0, 0, 0, 65 + |pw|], [0, 0, 0x01, 0x82]);
  }

  /** The command code stands in octets 6 to 9 of a frame, big-endian. */
  lemma CodeOctets(call: Call, area: Option<bytes>)
    ensures |Frame(call, area)| >= 10 && BigEndian(Frame(call, area)[6..10]) == call.code
  {
    assert Frame(call, area)[6..10] == U32Bytes(call.code);
    U32ValueInverts(call.code);
  }

  lemma ObjectCodes(h: u32, name: bytes, v: SensitiveCreate, template: Public, private: bytes, public: bytes,
                    area: Option<bytes>)
    ensures BigEndian(Frame(CreatePrimaryCall(h, v, template), area)[6..10]) == 0x0131
    ensures BigEndian(Frame(CreateCall(h, name, v, template), area)[6..10]) == 0x0153
    ensures BigEndian(Frame(LoadCall(h, name, private, public), area)[6..10]) == 0x0157
  {
    CodeOctets(CreatePrimaryCall(h, v, template), area);
    CodeOctets(CreateCall(h, name, v, template), area);
    CodeOctets(LoadCall(h, name, private, public), area);
  }

  /** SHA-1, SHA-256, SHA-384, SHA-512 and SM3-256 are the hashes, with these
      digest sizes. */
  lemma DigestSizes(alg: u16)
    ensures SizeOf(0x0004) == 20 && SizeOf(0x000B) == 32 && SizeOf(0x000C) == 48 && SizeOf(0x000D) == 64
    ensures SizeOf(0x0012) == 32
    ensures IsHash(alg) <==> alg in {0x0004, 0x000B, 0x000C, 0x000D, 0x0012}
  {
  }

  /** The codes that ask to try again: yielded, testing and retry. */
  lemma RetryCodes(rc: u32)
    ensures IsTransient(rc) <==> rc in {0x908, 0x90A, 0x922}
  {
    TransientExactly(rc);
  }
}
