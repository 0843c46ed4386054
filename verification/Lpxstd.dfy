/** Machine integers, optional values and the status codes shared by all components. */
module Lpxstd {

  datatype Option<+T> = None | Some(value: T)

  datatype Status = Success | IoError | Exists | NotFound | BadIndex | CameraStorage

  const TWO31: int := 0x8000_0000
  const TWO32: int := 0x1_0000_0000
  const TWO63: int := 0x8000_0000_0000_0000
  const TWO64: int := 0x1_0000_0000_0000_0000

  /** The value a 64-bit two's complement register holds for the integer `x`. */
  function ToInt64(x: int): int
  {
    var m := x % TWO64;
    if m < TWO63 then m else m - TWO64
  }

  function ToUint64(x: int): nat
  {
    x % TWO64
  }

  /** The same for 32 bits. */
  function ToInt32(x: int): int
  {
    var m := x % TWO32;
    if m < TWO31 then m else m - TWO32
  }

  predicate IsInt32(x: int)
  {
    -TWO31 <= x < TWO31
  }

  lemma FitsInt32(x: int)
    ensures IsInt32(ToInt32(x))
    ensures ToInt32(x) == x <==> IsInt32(x)
  {
    if IsInt32(x) {
      assert x % TWO32 == if x < 0 then x + TWO32 else x;
    }
  }

  predicate IsInt64(x: int)
  {
    -TWO63 <= x < TWO63
  }

  lemma FitsInt64(x: int)
    requires IsInt64(x)
    ensures ToInt64(x) == x
  {
    assert x % TWO64 == if x < 0 then x + TWO64 else x;
  }

  lemma FitsUint64(x: int)
    requires 0 <= x < TWO64
    ensures ToUint64(x) == x
  {
  }
}
