/** Machine bytes, shared by every component that works on raw buffers. */
module Bytes {
  type byte = b: int | 0 <= b < 256

  const WORD := 0x1_0000_0000
  const INT_MAX := 0x7fff_ffff

  /** What is left of a number in an `int`. */
  function Int32(x: int): (r: int)
    ensures -INT_MAX - 1 <= r <= INT_MAX
    ensures -INT_MAX - 1 <= x <= INT_MAX ==> r == x
    ensures INT_MAX < x < WORD ==> r == x - WORD
  {
    var m := x % WORD;
    if m <= INT_MAX then m else m - WORD
  }

  /** Concatenation with the middle rebracketed. */
  lemma ConcatAssoc<T>(a: seq<T>, b: seq<T>, c: seq<T>)
    ensures a + b + c == a + (b + c)
  {
  }
}
