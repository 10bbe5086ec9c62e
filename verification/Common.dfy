// Shared vocabulary: 64-bit addresses, optional values and the two ways a C++ call can end.
module Common {

  const ADDRESS_SPACE: nat := 0x1_0000_0000_0000_0000

  type Address = x: int | 0 <= x < ADDRESS_SPACE

  datatype Option<+T> = None | Some(value: T)

  /** How a call that may throw ends: normally, or with an exception. */
  datatype Outcome = Ok | Thrown

  /** Unsigned 64-bit wrap-around. */
  function Wrap(x: int): Address {
    x % ADDRESS_SPACE
  }

  /** `address + index` on unsigned 64-bit integers. */
  function Plus(a: Address, i: int): Address {
    Wrap(a + i)
  }

  /** `x - a` on unsigned 64-bit integers: how far x lies past a. */
  function Offset(x: Address, a: Address): Address {
    Wrap(x - a)
  }

  lemma PlusOffset(a: Address, i: int, x: Address)
    requires 0 <= i < ADDRESS_SPACE
    ensures Plus(a, i) == x <==> Offset(x, a) == i
  {
  }
}
