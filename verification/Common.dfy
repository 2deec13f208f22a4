/** What the parts of the model share. */
module Common {

  datatype Option<+T> = None | Some(value: T)

  /** A 32-byte word. The width is left out so that a collision-free compression function exists. */
  datatype Hash = Word(value: nat)

  /** The account of a contract, a guardian or a sender. */
  type Address = nat

  const INT64_LIMIT := 0x8000_0000_0000_0000

  function Pow2(n: nat): (r: nat)
    ensures r >= 1
  {
    if n == 0 then 1 else 2 * Pow2(n - 1)
  }
}
