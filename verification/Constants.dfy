/** TPM 2.0 code points (TPM 2.0 Library, Part 2, section 6). */
module Constants {
  import opened Basics

  // TPM_ST
  const ST_NO_SESSIONS: u16 := 0x8001
  const ST_SESSIONS: u16 := 0x8002

  // TPM_CC
  const CC_CREATE_PRIMARY: u32 := 0x131
  const CC_CREATE: u32 := 0x153
  const CC_LOAD: u32 := 0x157
  const CC_UNSEAL: u32 := 0x15E
  const CC_FLUSH_CONTEXT: u32 := 0x165
  const CC_START_AUTH_SESSION: u32 := 0x176
  const CC_PCR_READ: u32 := 0x17E
  const CC_PCR_EXTEND: u32 := 0x182

  // TPM_RH and the password pseudo-session
  const RH_NULL: u32 := 0x4000_0007
  const RS_PW: u32 := 0x4000_0009

  // TPM_SE
  const SE_HMAC: byte := 0

  // TPM_ALG_ID
  const ALG_SHA1: u16 := 0x0004
  const ALG_HMAC: u16 := 0x0005
  const ALG_AES: u16 := 0x0006
  const ALG_KEYEDHASH: u16 := 0x0008
  const ALG_XOR: u16 := 0x000A
  const ALG_SHA256: u16 := 0x000B
  const ALG_SHA384: u16 := 0x000C
  const ALG_SHA512: u16 := 0x000D
  const ALG_NULL: u16 := 0x0010
  const ALG_SM3_256: u16 := 0x0012
  const ALG_ECDAA: u16 := 0x001A
  const ALG_ECC: u16 := 0x0023
  const ALG_CFB: u16 := 0x0043

  // TPMA_SESSION
  const CONTINUE_SESSION: byte := 1

  /** The output size of a hash algorithm; TPM_ALG_NULL has size zero. */
  function AlgDigestSize(alg: u16): Option<nat> {
    if alg == ALG_SHA1 then Some(20)
    else if alg == ALG_SHA256 then Some(32)
    else if alg == ALG_SHA384 then Some(48)
    else if alg == ALG_SHA512 then Some(64)
    else if alg == ALG_SM3_256 then Some(32)
    else if alg == ALG_NULL then Some(0)
    else None
  }

  /** The digest size, or a usage error for anything that is not a hash. */
  function DigestSize(alg: u16): Result<nat> {
    match AlgDigestSize(alg)
    case Some(n) => if n > 0 then Success(n) else Failure(Usage)
    case None => Failure(Usage)
  }
}
