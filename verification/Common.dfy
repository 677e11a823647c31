// Small things that several modules share.
module Common {

  type byte = b: int | 0 <= b < 256

  datatype Option<T> = None | Some(value: T)

  /** One past the largest 32-bit unsigned number. */
  const WORD32: int := 0x1_0000_0000

  /** One past the largest 64-bit unsigned number, and half of it. */
  const WORD64: int := 0x1_0000_0000_0000_0000
  const HALF64: int := 0x8000_0000_0000_0000

  /** A 64-bit unsigned number read as a signed one. */
  function Signed(n: nat): int
    requires n < WORD64
  {
    if n < HALF64 then n else n - WORD64
  }

  function Min(a: int, b: int): int { if a < b then a else b }

  function Max(a: int, b: int): int { if a > b then a else b }

  function Magnitude(n: int): nat { if n < 0 then -n else n }

  function Power(base: nat, k: nat): nat {
    if k == 0 then 1 else base * Power(base, k - 1)
  }
}
