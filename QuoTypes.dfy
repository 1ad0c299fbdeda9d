/** Return codes, C integer widths and the C conversions between them. */
module QuoTypes {

  /** The codes the core returns: the QUO_* codes, and a raw MPI error code
      that a few paths hand back to the caller without converting it. */
  datatype Rc =
    | Success
    | ErrInvldArg
    | ErrOor
    | ErrMpi
    | ErrSys
    | ErrNotFound
    | MpiCode(code: Pos)

  type Pos = n: int | n > 0 witness 1

  /** Any code but success (what a failing collaborator may return). */
  type ErrRc = rc: Rc | rc != Success witness ErrOor

  datatype Option<T> = None | Some(value: T)

  datatype Result<T> = Ok(value: T) | Err(error: Rc)

  const U32Modulus: int := 0x1_0000_0000
  const U64Modulus: int := 0x1_0000_0000_0000_0000

  /** size_t and unsigned long on an LP64 target. */
  type U64 = x: int | 0 <= x < 0x1_0000_0000_0000_0000

  /** long long and long on an LP64 target. */
  type I64 = x: int | -0x8000_0000_0000_0000 <= x < 0x8000_0000_0000_0000

  /** int. */
  type I32 = x: int | -0x8000_0000 <= x < 0x8000_0000

  /** Conversion to an unsigned 64-bit type: reduction modulo 2^64. */
  function ToU64(x: int): (r: U64)
    ensures (r - x) % U64Modulus == 0
  {
    x % U64Modulus
  }

  /** Conversion to a signed 64-bit type, wrapping as two's complement
      (what GCC and Clang do for out-of-range values). */
  function ToI64(x: int): (r: I64)
    ensures (r - x) % U64Modulus == 0
  {
    var m := x % U64Modulus;
    if m < 0x8000_0000_0000_0000 then m else m - U64Modulus
  }

  /** Conversion to a signed 32-bit int, wrapping as two's complement. */
  function ToI32(x: int): (r: I32)
    ensures (r - x) % U32Modulus == 0
  {
    var m := x % U32Modulus;
    if m < 0x8000_0000 then m else m - U32Modulus
  }

  // ---------------------------------------------------------------------
  // Modular arithmetic used by the wrap-around proofs
  // ---------------------------------------------------------------------

  lemma ModShift(z: int, q: int)
    ensures (z + U64Modulus * q) % U64Modulus == z % U64Modulus
  {
  }

  /** Reducing a size_t operand first does not change a size_t sum. */
  lemma ModAddLeft(x: int, y: int)
    ensures (x % U64Modulus + y) % U64Modulus == (x + y) % U64Modulus
  {
    var q := x / U64Modulus;
    assert x == U64Modulus * q + x % U64Modulus;
    ModShift(x % U64Modulus + y, q);
  }

  /** Reduction modulo 2^64 keeps a value modulo 2^32. */
  lemma ModNarrow(x: int)
    ensures (x % U64Modulus - x) % U32Modulus == 0
  {
    var q := x / U64Modulus;
    assert x % U64Modulus - x == U32Modulus * (-U32Modulus * q);
    assert (U32Modulus * (-U32Modulus * q)) % U32Modulus == 0;
  }

  lemma ModSumZero(u: int, v: int)
    requires u % U32Modulus == 0 && v % U32Modulus == 0
    ensures (u + v) % U32Modulus == 0
  {
  }

  /** The plain sum of a sequence, built from the back as range_sum's loop
      and the all-reduce's rank order build it. */
  function Sum(s: seq<int>): int
  {
    if s == [] then 0 else Sum(s[..|s| - 1]) + s[|s| - 1]
  }

  lemma {:induction false} SumConcat(a: seq<int>, b: seq<int>)
    ensures Sum(a + b) == Sum(a) + Sum(b)
    decreases |b|
  {
    if b == [] {
      assert a + b == a;
    } else {
      var b0 := b[..|b| - 1];
      assert (a + b)[..|a + b| - 1] == a + b0;
      SumConcat(a, b0);
    }
  }

  lemma {:induction false} SumNonNegative(s: seq<U64>)
    ensures Sum(s) >= 0
  {
    if s != [] {
      SumNonNegative(s[..|s| - 1]);
    }
  }

  /** The sum over one more element adds that element. */
  lemma SumSnoc(xs: seq<int>, k: nat)
    requires k < |xs|
    ensures Sum(xs[..k + 1]) == Sum(xs[..k]) + xs[k]
  {
    assert xs[..k + 1][..k] == xs[..k];
  }

  /** A size sent as long long and stored back as size_t is unchanged. */
  lemma SizeRoundTrip(x: U64)
    ensures ToU64(ToI64(x)) == x
  {
  }
}
