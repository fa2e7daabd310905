/** The layered encoding of TPM response codes, and which of them mean "try again". */
module ResponseCodes {
  import opened Basics
  import opened Bits

  const RC_YIELDED: u32 := 0x908
  const RC_TESTING: u32 := 0x90A
  const RC_RETRY: u32 := 0x922

  predicate IsFormatOne(rc: u32) {
    And(rc, 0x080) != 0
  }

  /** The code without the argument number that a format-one code carries. */
  function Base(rc: u32): (b: u32)
    ensures b <= rc
  {
    AndBound(rc, 0x0BF);
    if IsFormatOne(rc) then And(rc, 0x0BF) else rc
  }

  predicate IsTransient(rc: u32) {
    Base(rc) == RC_YIELDED || Base(rc) == RC_TESTING || Base(rc) == RC_RETRY
  }

  predicate IsRetryCode(rc: u32) {
    rc == RC_YIELDED || rc == RC_TESTING || rc == RC_RETRY
  }

  /** Stripping the argument number neither creates nor hides a retry code. */
  lemma TransientExactly(rc: u32)
    ensures IsTransient(rc) <==> IsRetryCode(rc)
  {
    if IsFormatOne(rc) {
      FormatOneIsSmall(rc);
    }
    if IsRetryCode(rc) {
      RetryIsFormatZero(rc);
    }
  }

  lemma FormatOneIsSmall(rc: u32)
    requires IsFormatOne(rc)
    ensures Base(rc) <= 0x0BF
  {
    AndBound(rc, 0x0BF);
  }

  lemma RetryIsFormatZero(rc: u32)
    requires IsRetryCode(rc)
    ensures !IsFormatOne(rc)
  {
    assert rc / 0x80 % 2 == 0;
    var m := 0x080;
    Bit7(rc, m);
  }

  lemma Bit7(x: nat, m: nat)
    requires m == 0x080
    ensures And(x, m) == x / 0x80 % 2 * 0x80
  {
    var x1 := AndShift(x, m, 0x40);
    var x2 := AndShift(x1, m / 2, 0x20);
    var x3 := AndShift(x2, m / 4, 0x10);
    var x4 := AndShift(x3, m / 8, 8);
    var x5 := AndShift(x4, m / 0x10, 4);
    var x6 := AndShift(x5, m / 0x20, 2);
    var x7 := AndShift(x6, m / 0x40, 1);
    AndOne(x7, m / 0x80);
  }

  lemma AndShift(x: nat, m: nat, half: nat) returns (y: nat)
    requires m == 2 * half
    ensures y == x / 2 && And(x, m) == 2 * And(y, half)
  {
    y := x / 2;
    assert m % 2 == 0 && m / 2 == half;
  }

  lemma AndOne(x: nat, m: nat)
    requires m == 1
    ensures And(x, m) == x % 2
  {
    AndBound(x / 2, m / 2);
  }
}
