/** Vocabulary shared by every module: byte strings, ranges, optional values and fallible results. */
module Basics {

  /** One byte, written as the character of the same code so that operators and delimiters read literally. */
  type Byte = c: char | c < 256 as char witness 'a'

  type Bytes = seq<Byte>

  datatype Option<+T> = None | Some(value: T)

  datatype Result<+T, +E> = Ok(value: T) | Err(error: E) {
    predicate IsFailure() { Err? }

    function PropagateFailure<U>(): Result<U, E>
      requires Err?
    {
      Err(error)
    }

    function Extract(): T
      requires Ok?
    {
      value
    }
  }

  /** Half-open byte range. Nothing forces `start <= end`; readers check it. */
  datatype ByteRange = ByteRange(start: nat, end: nat)

  const U8_COUNT: nat := 0x100
  const U16_COUNT: nat := 0x1_0000
  const U32_COUNT: nat := 0x1_0000_0000
  const U64_COUNT: nat := 0x1_0000_0000_0000_0000
  const U32_MAX: nat := U32_COUNT - 1

  /** `slice.get(start..end)`: absent when the range is reversed or leaves the slice. */
  function Slice(source: Bytes, range: ByteRange): Option<Bytes> {
    if range.start <= range.end <= |source| then Some(source[range.start..range.end]) else None
  }

  /** `usize_to_u32`: saturates instead of wrapping. */
  function SaturateU32(value: nat): nat {
    if value < U32_COUNT then value else U32_MAX
  }
}
