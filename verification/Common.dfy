/** Types and arithmetic shared by modules that handle octets and optional values. */
module Common {

  datatype Option<+T> = None | Some(value: T)

  type Octet = x: int | 0 <= x < 256

  function Pow2(k: nat): (r: nat)
    ensures r >= 1
  {
    if k == 0 then 1 else 2 * Pow2(k - 1)
  }
}
