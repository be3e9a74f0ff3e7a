/** Small definitions shared by all parts. */
module Basics {

  datatype Option<T> = None | Some(value: T)

  type Byte = x: nat | x < 256

  const TWO_64 := 0x1_0000_0000_0000_0000

  type Uint64 = n: nat | n < TWO_64

  const TWO_32 := 0x1_0000_0000

  type Int32 = x: int | -0x8000_0000 <= x < 0x8000_0000

  type Int64 = x: int | -0x8000_0000_0000_0000 <= x < 0x8000_0000_0000_0000

  /** Two's complement: the signed number with the bits of `n`. */
  function ToInt32(n: nat): Int32 {
    var m := n % TWO_32;
    if m < 0x8000_0000 then m else m - TWO_32
  }

  function ToInt64(n: nat): Int64 {
    var m := n % TWO_64;
    if m < 0x8000_0000_0000_0000 then m else m - TWO_64
  }

  /** The most elements that are read of a list. */
  const MAX_SIZE := 0x0200_0000

  const MAX_BLOCK_BASE_SIZE := 1000000

  function Min(x: int, y: int): int {
    if x < y then x else y
  }

  function Max(x: int, y: int): int {
    if x < y then y else x
  }

  /** A set that is not empty has an element. */
  lemma Inhabited<T>(s: set<T>)
    ensures s == {} || exists x :: x in s
  {
    if !(exists x :: x in s) {
      assert s == {};
    }
  }

  method Pick<T(==)>(s: set<T>) returns (x: T)
    requires s != {}
    ensures x in s
  {
    Inhabited(s);
    x :| x in s;
  }
}
