/** 32-bit words, in host order and as stored.
    Every numeric field of a DOL header and of the produced ELF headers is
    stored big-endian (most significant byte first). `ntohl` reads such a
    field as a number and `htonl` writes a number back; arithmetic on
    host-order numbers is unsigned and wraps modulo 2^32. */
module ByteOrder {

  const WORD_MODULUS: int := 0x1_0000_0000

  /** An unsigned 32-bit number in host order (`Elf32_Addr`, `Elf32_Word`). */
  type Word = x: int | 0 <= x < 0x1_0000_0000

  /** A 32-bit field in network order, identified by the number it encodes.
      Which byte of it comes first in memory is not modelled, so a raw copy
      of a DOL field and `htonl(ntohl(field))` are the same field by
      construction. */
  datatype Be32 = Be32(value: Word)

  const ZERO: Be32 := Be32(0)

  /** Network order to host order. */
  function Ntohl(w: Be32): Word
  {
    w.value
  }

  /** Host order to network order. */
  function Htonl(x: Word): Be32
  {
    Be32(x)
  }

  /** Unsigned 32-bit addition. */
  function Add(a: Word, b: Word): Word
  {
    (a + b) % WORD_MODULUS
  }

  /** Unsigned 32-bit subtraction. */
  function Sub(a: Word, b: Word): Word
  {
    (a - b) % WORD_MODULUS
  }

  /** Subtraction undoes addition, and addition undoes subtraction. */
  lemma AddSub(a: Word, b: Word)
    ensures Add(a, Sub(b, a)) == b
    ensures Sub(Add(a, b), a) == b
  {
  }

  /** Addition modulo 2^32 is associative. */
  lemma AddAssociative(a: Word, b: Word, c: Word)
    ensures Add(Add(a, b), c) == Add(a, Add(b, c))
  {
  }

  /** Adding the same word on the left cancels. */
  lemma AddCancel(a: Word, b: Word, c: Word)
    requires Add(a, b) == Add(a, c)
    ensures b == c
  {
  }
}
