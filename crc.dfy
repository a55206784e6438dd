/** The Sensirion CRC-8 that protects every 2-byte word an SDP3x sensor returns:
    polynomial 0x31 (x^8 + x^5 + x^4 + 1), initial value 0xFF, no reflection,
    no final XOR, most significant bit first, high byte of the word first.
    This module holds the bitwise definition, the register loop of the
    polynomial build of the driver, and the algebra behind error detection. */
module Crc {

  const Polynomial: bv8 := 0x31
  const Init: bv8 := 0xFF
  const BitsPerByte: nat := 8

  function HighByte(w: bv16): bv8 { (w >> 8) as bv8 }
  function LowByte(w: bv16): bv8 { (w & 0xFF) as bv8 }

  /** The word whose high byte is hi and whose low byte is lo, as received on the bus. */
  function Word(hi: bv8, lo: bv8): (w: bv16)
    ensures HighByte(w) == hi && LowByte(w) == lo
  {
    ((hi as bv16) << 8) | (lo as bv16)
  }

  /** Splitting a word into its bytes and joining them again gives the word back. */
  lemma WordOfBytes(w: bv16)
    ensures Word(HighByte(w), LowByte(w)) == w
  {
  }

  /** One shift of the CRC register: the polynomial is XORed in when the top bit falls out. */
  function ShiftStep(crc: bv8): bv8
  {
    if crc & 0x80 != 0 then (crc << 1) ^ Polynomial else crc << 1
  }

  /** The register after n shift steps. */
  function Shifts(crc: bv8, n: nat): bv8
  {
    if n == 0 then crc else ShiftStep(Shifts(crc, n - 1))
  }

  /** The bitwise update of the register by one input byte: XOR it in, then shift eight times. */
  function ByteStep(crc: bv8, b: bv8): bv8
  {
    Shifts(crc ^ b, BitsPerByte)
  }

  /** The register after feeding the bytes of data to it, first byte first. */
  function Update(crc: bv8, data: seq<bv8>): bv8
  {
    if data == [] then crc else ByteStep(Update(crc, data[..|data| - 1]), data[|data| - 1])
  }

  /** Feeding one more byte extends the register update by one byte step. */
  lemma UpdateStep(data: seq<bv8>, x: nat)
    requires x < |data|
    ensures Update(Init, data[..x + 1]) == ByteStep(Update(Init, data[..x]), data[x])
  {
    assert data[..x + 1][..x] == data[..x];
  }

  /** The checksum of a 2-byte word, high byte first: the definition both builds of the driver meet. */
  function Crc8(w: bv16): bv8
  {
    Update(Init, [HighByte(w), LowByte(w)])
  }

  /** The word with bit k (0 = least significant) inverted. */
  function FlipBit(w: bv16, k: nat): bv16
    requires k < 16
  {
    w ^ (1 << k)
  }

  /** The checksum of a word is the register after its high byte and then its low byte. */
  lemma Crc8Bytes(w: bv16)
    ensures Crc8(w) == ByteStep(ByteStep(Init, HighByte(w)), LowByte(w))
  {
    var h := HighByte(w);
    assert [h][..0] == [];
    assert Update(Init, [h]) == ByteStep(Init, h);
    assert [h, LowByte(w)][..1] == [h];
  }

  /** The check value of the Sensirion data sheet. */
  lemma CheckValue()
    ensures Crc8(0xBEEF) == 0x92
  {
    Crc8Bytes(0xBEEF);
    assert ByteStep(Init, 0xBE) == 0x0C;
  }

  /** The polynomial build: XOR each byte into an 8-bit register, then shift it eight times. */
  method Crc8Polynomial(twoBytes: bv16) returns (crc: bv8)
    ensures crc == Crc8(twoBytes)
  {
    var data := [HighByte(twoBytes), LowByte(twoBytes)];
    crc := Init;
    for x := 0 to 2
      invariant crc == Update(Init, data[..x])
    {
      UpdateStep(data, x);
      crc := ShiftOutByte(crc ^ data[x]);
    }
    assert data[..2] == data;
  }

  /** The inner loop of the polynomial build: eight shifts of the register. */
  method ShiftOutByte(fed: bv8) returns (crc: bv8)
    ensures crc == Shifts(fed, BitsPerByte)
  {
    crc := fed;
    for i := 0 to BitsPerByte
      invariant crc == Shifts(fed, i)
    {
      if crc & 0x80 != 0 {
        crc := (crc << 1) ^ Polynomial;
      } else {
        crc := crc << 1;
      }
    }
  }

  // ---------------------------------------------------------------------------
  // Linearity over XOR, and what it gives for error detection

  lemma ShiftStepLinear(a: bv8, b: bv8)
    ensures ShiftStep(a ^ b) == ShiftStep(a) ^ ShiftStep(b)
  {
    assert (a ^ b) << 1 == (a << 1) ^ (b << 1);
    assert ((a ^ b) & 0x80 != 0) == ((a & 0x80 != 0) != (b & 0x80 != 0));
  }

  /** Shifting commutes with XOR: the register is a linear function of its start value. */
  lemma {:induction false} ShiftsLinear(a: bv8, b: bv8, n: nat)
    ensures Shifts(a ^ b, n) == Shifts(a, n) ^ Shifts(b, n)
  {
    if n > 0 {
      ShiftsLinear(a, b, n - 1);
      ShiftStepLinear(Shifts(a, n - 1), Shifts(b, n - 1));
    }
  }

  /** No shift sequence turns a nonzero register into zero (the polynomial has constant term 1). */
  lemma {:induction false} ShiftsZero(a: bv8, n: nat)
    ensures Shifts(a, n) == 0 <==> a == 0
  {
    if n > 0 {
      ShiftsZero(a, n - 1);
    }
  }

  /** The eight-step shift is one-to-one: distinct registers stay distinct. */
  lemma ShiftsInjective(a: bv8, b: bv8, n: nat)
    ensures Shifts(a, n) == Shifts(b, n) ==> a == b
  {
    ShiftsLinear(a, b, n);
    ShiftsZero(a ^ b, n);
    XorZero(a, b);
    XorZero(Shifts(a, n), Shifts(b, n));
  }

  lemma XorZero(a: bv8, b: bv8)
    ensures a ^ b == 0 <==> a == b
  {
  }

  /** Feeding different bytes to the same register gives different registers. */
  lemma ByteStepInjective(crc: bv8, b: bv8, b': bv8)
    requires b != b'
    ensures ByteStep(crc, b) != ByteStep(crc, b')
  {
    XorCancel(crc, b, b');
    ShiftsInjective(crc ^ b, crc ^ b', BitsPerByte);
  }

  /** Feeding the same byte to different registers gives different registers. */
  lemma ByteStepInjectiveRegister(crc: bv8, crc': bv8, b: bv8)
    requires crc != crc'
    ensures ByteStep(crc, b) != ByteStep(crc', b)
  {
    XorCancel(b, crc, crc');
    assert crc ^ b == b ^ crc && crc' ^ b == b ^ crc';
    ShiftsInjective(crc ^ b, crc' ^ b, BitsPerByte);
  }

  lemma XorCancel(c: bv8, a: bv8, b: bv8)
    ensures c ^ a == c ^ b <==> a == b
  {
  }

  /** Changing exactly one of the two bytes of a word changes the checksum. */
  lemma OneByteChangeDetected(h: bv8, l: bv8, h': bv8, l': bv8)
    requires (h == h') != (l == l')
    ensures ByteStep(ByteStep(Init, h), l) != ByteStep(ByteStep(Init, h'), l')
  {
    if h == h' {
      ByteStepInjective(ByteStep(Init, h), l, l');
    } else {
      ByteStepInjective(Init, h, h');
      ByteStepInjectiveRegister(ByteStep(Init, h), ByteStep(Init, h'), l);
    }
  }

  /** A received word whose high or low byte (but not both) differs from the sent
      one has a different checksum. */
  lemma WordByteChangeDetected(h: bv8, l: bv8, h': bv8, l': bv8)
    requires (h == h') != (l == l')
    ensures Crc8(Word(h, l)) != Crc8(Word(h', l'))
  {
    Crc8Bytes(Word(h, l));
    Crc8Bytes(Word(h', l'));
    OneByteChangeDetected(h, l, h', l');
  }

  /** An error pattern confined to one byte of the word is always detected. */
  lemma SingleByteErrorDetected(w: bv16, e: bv16)
    requires e != 0
    requires HighByte(e) == 0 || LowByte(e) == 0
    ensures Crc8(w ^ e) != Crc8(w)
  {
    var w' := w ^ e;
    Crc8Bytes(w);
    Crc8Bytes(w');
    ByteParts(w, e);
    var h, l, h', l' := HighByte(w), LowByte(w), HighByte(w'), LowByte(w');
    if HighByte(e) == 0 {
      assert h' == h && l' != l;
    } else {
      assert h' != h && l' == l;
    }
    OneByteChangeDetected(h, l, h', l');
  }

  /** How an error pattern splits over the two bytes of a word. */
  lemma ByteParts(w: bv16, e: bv16)
    ensures HighByte(w ^ e) == HighByte(w) ^ HighByte(e)
    ensures LowByte(w ^ e) == LowByte(w) ^ LowByte(e)
    ensures e != 0 <==> HighByte(e) != 0 || LowByte(e) != 0
  {
  }

  /** Inverting any single bit of a word changes its checksum. */
  lemma SingleBitFlipDetected(w: bv16, k: nat)
    requires k < 16
    ensures Crc8(FlipBit(w, k)) != Crc8(w)
  {
    var e: bv16 := 1 << k;
    assert e != 0 && (HighByte(e) == 0 || LowByte(e) == 0);
    SingleByteErrorDetected(w, e);
  }
}
