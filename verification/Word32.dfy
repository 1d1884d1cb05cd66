/** Fixed-width integers of the C source: 32-bit words, their signed reading, and bytes. */
module Word32 {

  const TWO_32: int := 0x1_0000_0000

  type u32 = x: int | 0 <= x < 0x1_0000_0000
  type i32 = x: int | -0x8000_0000 <= x < 0x8000_0000
  type byte = x: int | 0 <= x < 256

  /** Unsigned arithmetic is modulo 2^32. */
  function Wrap(x: int): u32 {
    x % 0x1_0000_0000
  }

  /** The bits of an unsigned word read as two's complement. */
  function AsSigned(x: u32): i32 {
    if x < 0x8000_0000 then x else x - 0x1_0000_0000
  }

  /** Storing the signed reading of a word restores its bits. */
  lemma WrapSigned(x: u32)
    ensures Wrap(AsSigned(x)) == x
  {
  }

  lemma WrapSmall(x: u32)
    ensures Wrap(x) == x
  {
  }

  /** Two counts that differ by less than 2^32 have equal wrapped words exactly when they are equal. */
  lemma WrapInjective(a: int, b: int)
    requires -0x1_0000_0000 < a - b < 0x1_0000_0000
    ensures Wrap(a) == Wrap(b) <==> a == b
  {
    if Wrap(a) == Wrap(b) {
      var q := a / 0x1_0000_0000 - b / 0x1_0000_0000;
      assert a - b == 0x1_0000_0000 * q;
    }
  }

  /** Wrapping may be done before or after adding. */
  lemma WrapAdd(a: int, d: int)
    ensures Wrap(Wrap(a) + d) == Wrap(a + d)
  {
    var q := a / 0x1_0000_0000;
    var b := Wrap(a) + d;
    var r := b / 0x1_0000_0000;
    assert a + d == 0x1_0000_0000 * (q + r) + Wrap(b);
  }
}
