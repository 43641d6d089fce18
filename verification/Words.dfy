/** An optional value, powers of two, and 32-bit words and ints as C computes with them. */
module Words {
  datatype Option<+T> = None | Some(value: T)

  function Pow2(n: nat): (p: nat)
    ensures 0 < p
  {
    if n == 0 then 1 else 2 * Pow2(n - 1)
  }

  /** A value as an unsigned 32-bit word. */
  function W(x: int): nat { x % 0x1_0000_0000 }

  /** A value as a signed one. */
  function AsInt(x: int): int { if W(x) < 0x8000_0000 then W(x) else W(x) - 0x1_0000_0000 }
}
