/** Declarations shared by the models of the four drivers. */
module Common {
  datatype Option<+T> = None | Some(value: T)

  /** One unsigned 8-bit value, for the drivers that only move bytes around. */
  type byte = x: int | 0 <= x < 256

  /** The third argument of lseek; Other is any value the drivers reject. */
  datatype Whence = Set | Cur | End | Other

  /** Where a seek measures from: End is the last byte, not the end of the file. */
  function SeekBase(size: nat, pos: nat, whence: Whence): int {
    match whence
    case Set => 0
    case Cur => pos
    case End => size - 1
    case Other => -1
  }

  /** The seek rule of both character devices: the new position must be an index into the device. */
  function SeekTarget(size: nat, pos: nat, offset: int, whence: Whence): (r: Option<nat>)
    requires size > 0
    ensures r.Some? <==> whence != Other && 0 <= SeekBase(size, pos, whence) + offset < size
    ensures r.Some? ==> r.value == SeekBase(size, pos, whence) + offset
  {
    match whence
    case Set => if offset > size - 1 || offset < 0 then None else Some(offset)
    case Cur =>
      var temp := pos + offset;
      if temp > size - 1 || temp < 0 then None else Some(temp)
    case End =>
      var temp := size - 1 + offset;
      if temp > size - 1 || temp < 0 then None else Some(temp)
    case Other => None
  }
}
