/** Integer widths shared by the modules of this project. */
module Bytes {
  /** `uint8_t`, and `char` as the ARM ABI has it (unsigned). */
  type byte = b: int | 0 <= b < 256

  type uint16 = n: int | 0 <= n < 0x1_0000

  type uint64 = n: int | 0 <= n < 0x1_0000_0000_0000_0000

  /** `unsigned long` and `uint32_t`. */
  type uint32 = n: int | 0 <= n < 0x1_0000_0000

  /** `long` on this target: 32 bits, two's complement. */
  type int32 = n: int | -0x8000_0000 <= n < 0x8000_0000

  datatype Option<+T> = None | Some(value: T)

  /**
   * The value a 32-bit signed register holds after an operation whose exact result is `n`: the one
   * 32-bit number that differs from `n` by a multiple of 2^32 (`WrapAgrees`).
   */
  function Wrap32(n: int): int32
    decreases if n < 0 then -n else n + 1
  {
    if n < -0x8000_0000 then Wrap32(n + 0x1_0000_0000)
    else if n >= 0x8000_0000 then Wrap32(n - 0x1_0000_0000)
    else n
  }

  lemma {:induction false} WrapAgrees(a: int, b: int, k: int)
    requires a == b + k * 0x1_0000_0000
    ensures Wrap32(a) == Wrap32(b)
    decreases if k < 0 then -k else k
  {
    if k > 0 {
      WrapAgrees(a, b + 0x1_0000_0000, k - 1);
      WrapOnce(b);
    } else if k < 0 {
      WrapAgrees(a + 0x1_0000_0000, b, k + 1);
      WrapOnce(a);
    }
  }

  lemma {:induction false} WrapOnce(b: int)
    ensures Wrap32(b + 0x1_0000_0000) == Wrap32(b)
    decreases if b < 0 then -b else b + 1
  {
    if b < -0x8000_0000 {
    } else if b >= 0x8000_0000 {
      WrapOnce(b - 0x1_0000_0000);
    }
  }

  lemma {:induction false} WrapDiffers(n: int) returns (k: int)
    ensures n == Wrap32(n) + k * 0x1_0000_0000
    decreases if n < 0 then -n else n + 1
  {
    if n < -0x8000_0000 {
      k := WrapDiffers(n + 0x1_0000_0000);
      k := k - 1;
    } else if n >= 0x8000_0000 {
      k := WrapDiffers(n - 0x1_0000_0000);
      k := k + 1;
    } else {
      k := 0;
    }
  }

  /** Conversion of a `long` to `unsigned long`. */
  function ToUnsigned(n: int32): uint32 {
    if n < 0 then n + 0x1_0000_0000 else n
  }

  /** The unsigned image is the one number of 32 bits that converts back. */
  lemma ToUnsignedExactly(n: int32, u: uint32)
    ensures u == ToUnsigned(n) <==> Wrap32(u) == n
  {
    var k := WrapDiffers(u);
    if u >= 0x8000_0000 { WrapOnce(u - 0x1_0000_0000); }
  }
}
