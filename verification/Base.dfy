/** Types and constants shared by the three drivers. */
module Base {

  type Byte = x: int | 0 <= x < 256

  /** The size of a 32-bit word. */
  const TWO32: nat := 0x1_0000_0000

  datatype Option<+T> = None | Some(value: T)

  // Linux error numbers; the drivers return their negatives.
  const EIO := 5
  const ENXIO := 6
  const EAGAIN := 11
  const ENOMEM := 12
  const EBUSY := 16
  const ENODEV := 19
  const EINVAL := 22
  const ESHUTDOWN := 108
  const ETIMEDOUT := 110
  const ECONNREFUSED := 111
  const EREMOTEIO := 121

  function Min(a: nat, b: nat): (m: nat)
  {
    if a <= b then a else b
  }
}
