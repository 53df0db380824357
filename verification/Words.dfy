/**
  32-bit ints and their bytes, the lowest first (LittleLong of the program).
 */
module Words {
  import opened BitStream

  predicate Int32(v: int) {
    -0x8000_0000 <= v < 0x8000_0000
  }

  /** An int computed modulo 2^32 */
  function Wrap(v: int): (r: int)
    ensures Int32(r)
  {
    (v + 0x8000_0000) % 0x1_0000_0000 - 0x8000_0000
  }

  function Unsigned(v: int): (r: nat)
  {
    v % 0x1_0000_0000
  }

  function WordBytes(v: int): (r: seq<byte>)
    ensures |r| == 4
  {
    var u := Unsigned(v);
    [u % 256, u / 0x100 % 256, u / 0x1_0000 % 256, u / 0x100_0000 % 256]
  }

  /** The int stored in four bytes, the lowest first */
  function Load4(m: seq<byte>, a: int): (r: int)
    requires 0 <= a && a + 4 <= |m|
    ensures Int32(r)
  {
    Wrap(m[a] as int + 0x100 * m[a + 1] as int + 0x1_0000 * m[a + 2] as int + 0x100_0000 * m[a + 3] as int)
  }

  /** A number is made of its digits. */
  lemma Digits(u: nat)
    requires u < 0x1_0000_0000
    ensures u == u % 256 + 0x100 * (u / 0x100 % 256) + 0x1_0000 * (u / 0x1_0000 % 256)
      + 0x100_0000 * (u / 0x100_0000 % 256)
  {
    var a := u / 0x100;
    var b := a / 0x100;
    var c := b / 0x100;
    assert b == u / 0x1_0000 && c == u / 0x100_0000 && c < 256;
  }

  lemma WrapOfUnsigned(v: int)
    requires Int32(v)
    ensures Unsigned(v) < 0x1_0000_0000 && Wrap(Unsigned(v)) == v
  {
  }

  lemma LoadsWhatWasStored(v: int)
    requires Int32(v)
    ensures Load4(WordBytes(v), 0) == v
  {
    hide Wrap, Unsigned;
    WrapOfUnsigned(v);
    Digits(Unsigned(v));
  }

  lemma LoadsFrom(bytes: seq<byte>, at: nat)
    requires at + 4 <= |bytes|
    ensures Load4(bytes, at) == Load4(bytes[at..at + 4], 0)
  {
  }
}
