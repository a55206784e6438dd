/** The driver's two checksum entry points, _CRC8 on an unsigned word and
    _CRC8signed on a signed one. Which build computes them is fixed at compile
    time by SDP3X_LOOKUP_TABLE; here that switch is the parameter lookupTable. */
module Checksum {
  import Crc
  import CrcTable

  /** A signed 16-bit integer (int16_t). */
  newtype Int16 = x: int | -0x8000 <= x < 0x8000

  /** The value of a word, high byte first, read as unsigned. */
  function UnsignedValue(w: bv16): (n: int)
    ensures 0 <= n < 0x1_0000
  {
    Crc.HighByte(w) as int * 0x100 + Crc.LowByte(w) as int
  }

  /** The 16 bits of a signed word read as an unsigned word (two's complement),
      built from its high and low byte. */
  function AsUnsigned(x: Int16): (w: bv16)
    ensures UnsignedValue(w) == if x < 0 then x as int + 0x1_0000 else x as int
  {
    var n := if x < 0 then x as int + 0x1_0000 else x as int;
    Crc.Word(ByteOf(n / 0x100), ByteOf(n % 0x100))
  }

  /** The 16 bits of an unsigned word read as a signed word (two's complement). */
  function AsSigned(w: bv16): (x: Int16)
    ensures (x < 0) == (UnsignedValue(w) >= 0x8000)
  {
    var n := UnsignedValue(w);
    if n < 0x8000 then n as Int16 else (n - 0x1_0000) as Int16
  }

  /** The byte whose value is v, assembled from its two hexadecimal digits. */
  function ByteOf(v: int): (b: bv8)
    requires 0 <= v < 0x100
    ensures b as int == v
  {
    var hi, lo := v / 0x10, v % 0x10;
    NibbleValue(hi);
    NibbleValue(lo);
    var b := ((hi as bv4) as bv8 << 4) | (lo as bv4) as bv8;
    assert b as int == hi * 0x10 + lo;
    b
  }

  /** A number below 16 converts to a 4-bit vector of that value. */
  lemma NibbleValue(v: int)
    requires 0 <= v < 0x10
    ensures (v as bv4) as int == v
  {
  }

  /** Reading the bits of a signed word as unsigned and back is the identity. */
  lemma SignedOfUnsigned(x: Int16)
    ensures AsSigned(AsUnsigned(x)) == x
  {
  }

  /** Reading the bits of an unsigned word as signed and back is the identity. */
  lemma UnsignedOfSigned(w: bv16)
    ensures AsUnsigned(AsSigned(w)) == w
  {
    var n := UnsignedValue(w);
    var x := AsSigned(w);
    assert x as int == if n < 0x8000 then n else n - 0x1_0000;
    UnsignedValueInjective(AsUnsigned(x), w);
  }

  /** Two words with the same unsigned value are the same word. */
  lemma UnsignedValueInjective(w: bv16, w': bv16)
    requires UnsignedValue(w) == UnsignedValue(w')
    ensures w == w'
  {
    var h, l, h', l' := Crc.HighByte(w), Crc.LowByte(w), Crc.HighByte(w'), Crc.LowByte(w');
    DigitsUnique(h as int, l as int, h' as int, l' as int);
    ByteIntInjective(h, h');
    ByteIntInjective(l, l');
    Crc.WordOfBytes(w);
    Crc.WordOfBytes(w');
  }

  /** Two bytes with the same value are the same byte. */
  lemma ByteIntInjective(a: bv8, b: bv8)
    requires a as int == b as int
    ensures a == b
  {
  }

  /** A two-digit base-256 number has unique digits. */
  lemma DigitsUnique(h: int, l: int, h': int, l': int)
    requires 0 <= l < 0x100 && 0 <= l' < 0x100
    requires h * 0x100 + l == h' * 0x100 + l'
    ensures h == h' && l == l'
  {
  }

  /** _CRC8: the checksum of a 2-byte word, high byte first, by whichever build is compiled in. */
  method Crc8(twoBytes: bv16, lookupTable: bool) returns (crc: bv8)
    ensures crc == Crc.Crc8(twoBytes)
  {
    if lookupTable {
      crc := CrcTable.Crc8LookupTable(twoBytes);
    } else {
      crc := Crc.Crc8Polynomial(twoBytes);
    }
  }

  /** _CRC8signed: the checksum of a signed word is the checksum of the same 16 bits unsigned. */
  method Crc8Signed(twoBytes: Int16, lookupTable: bool) returns (crc: bv8)
    ensures crc == Crc.Crc8(AsUnsigned(twoBytes))
  {
    crc := Crc8(AsUnsigned(twoBytes), lookupTable);
  }
}
