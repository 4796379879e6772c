/** Small definitions that several parts of the model share. */
module Common {

  const W32: nat := 0x1_0000_0000

  type Byte = b: nat | b < 256

  type Word = w: nat | w < 0x1_0000_0000

  datatype Option<T> = None | Some(value: T)

  function Min(a: nat, b: nat): nat {
    if a <= b then a else b
  }

  predicate IsDigit(c: char) {
    '0' <= c <= '9'
  }
}
