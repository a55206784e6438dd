/** What the SDP3X driver does with the sensor's answers: every 2-byte data word
    arrives followed by its CRC-8, a word is trusted only when the checksum
    matches, the 32-bit product id is two such words, and a measurement is three
    (differential pressure, temperature, scale factor). Bus transfers are not
    modelled: an operation receives the bytes the bus delivered, or the fact that
    the transfer failed. */
module Sdp3x {
  import Crc
  import opened Checksum
  import opened Commands
  import opened Wrappers

  /** SDP3XERR, the status every driver operation returns. */
  datatype Sdp3xErr = Success | ErrBadCrc | ErrI2cError

  /** The numeric value of a status: enumerators count up from SDP3X_SUCCESS = 0. */
  function ErrValue(e: Sdp3xErr): (n: nat)
    ensures n < 3
    ensures (n == 0) == (e == Success)
  {
    match e
    case Success => 0
    case ErrBadCrc => 1
    case ErrI2cError => 2
  }

  /** The status with numeric value n, if there is one. */
  function ErrOfValue(n: int): (r: Option<Sdp3xErr>)
    ensures r.Some? <==> 0 <= n < 3
    ensures r.Some? ==> ErrValue(r.value) == n
  {
    if n == 0 then Some(Success)
    else if n == 1 then Some(ErrBadCrc)
    else if n == 2 then Some(ErrI2cError)
    else None
  }

  /** Every status survives the trip through its numeric value. */
  lemma ErrValueRoundTrip(e: Sdp3xErr)
    ensures ErrOfValue(ErrValue(e)) == Some(e)
  {
  }

  /** The bus address the driver uses unless told otherwise (jumpers select 0x22 or 0x23). */
  const DefaultAddress: bv8 := 0x21

  /** The outcome of a read: the values, or the failing status (never Success). */
  datatype Result<T> = Ok(value: T) | Fail(error: Sdp3xErr)

  /** The status the driver returns for an outcome. */
  function Status<T>(r: Result<T>): Sdp3xErr {
    if r.Ok? then Success else r.error
  }

  /** What the bus delivered for a read: the received bytes, or a transfer failure. */
  datatype Reply = Received(bytes: seq<bv8>) | BusError

  /** The i-th data word of a received frame; each word takes three bytes on
      the bus: high byte, low byte, CRC-8. */
  function WordAt(bytes: seq<bv8>, i: nat): bv16
    requires 3 * i + 1 < |bytes|
  {
    Crc.Word(bytes[3 * i], bytes[3 * i + 1])
  }

  /** The i-th word of a frame carries a matching checksum. */
  predicate WordValid(bytes: seq<bv8>, i: nat)
    requires 3 * i + 2 < |bytes|
  {
    Crc.Crc8(WordAt(bytes, i)) == bytes[3 * i + 2]
  }

  /** Every word of the frame carries a matching checksum. */
  ghost predicate AllWordsValid(bytes: seq<bv8>) {
    forall i: nat :: 3 * i + 2 < |bytes| ==> WordValid(bytes, i)
  }

  /** The words of a frame without its first word are the remaining words. */
  lemma DropWord(bytes: seq<bv8>)
    requires |bytes| >= 3
    ensures forall i: nat :: 3 * i + 2 < |bytes| - 3 ==>
      WordAt(bytes[3..], i) == WordAt(bytes, i + 1) && bytes[3..][3 * i + 2] == bytes[3 * i + 5]
  {
  }

  /** Validate a frame word by word: all words are returned when every checksum
      matches, and nothing is returned (ErrBadCrc) as soon as one does not. */
  function CheckWords(bytes: seq<bv8>): (r: Result<seq<bv16>>)
    requires |bytes| % 3 == 0
    ensures r.Ok? ==> 3 * |r.value| == |bytes|
    ensures r.Fail? ==> r.error == ErrBadCrc
    decreases |bytes|
  {
    if |bytes| == 0 then Ok([])
    else
      var w := Crc.Word(bytes[0], bytes[1]);
      if Crc.Crc8(w) != bytes[2] then Fail(ErrBadCrc)
      else
        var rest := CheckWords(bytes[3..]);
        if rest.Fail? then rest else Ok([w] + rest.value)
  }

  /** A frame passes validation exactly when every word's checksum matches. */
  lemma CheckWordsValid(bytes: seq<bv8>)
    requires |bytes| % 3 == 0
    ensures CheckWords(bytes).Ok? <==> AllWordsValid(bytes)
  {
    if CheckWords(bytes).Ok? {
      CheckedWordsValid(bytes);
    } else {
      UncheckedWordInvalid(bytes);
    }
  }

  /** Validation passes only when every word's checksum matches. */
  lemma {:induction false} CheckedWordsValid(bytes: seq<bv8>)
    requires |bytes| % 3 == 0 && CheckWords(bytes).Ok?
    ensures AllWordsValid(bytes)
  {
    if |bytes| > 0 {
      DropWord(bytes);
      CheckedWordsValid(bytes[3..]);
      forall i: nat | 3 * i + 2 < |bytes|
        ensures WordValid(bytes, i)
      {
        if i > 0 {
          assert WordValid(bytes[3..], i - 1);
        }
      }
    }
  }

  /** When validation fails, some word's checksum does not match. */
  lemma {:induction false} UncheckedWordInvalid(bytes: seq<bv8>)
    requires |bytes| % 3 == 0 && CheckWords(bytes).Fail?
    ensures !AllWordsValid(bytes)
  {
    if WordValid(bytes, 0) {
      DropWord(bytes);
      UncheckedWordInvalid(bytes[3..]);
      var j: nat :| 3 * j + 2 < |bytes| - 3 && !WordValid(bytes[3..], j);
      assert !WordValid(bytes, j + 1);
    }
  }

  /** Word i of a validated frame is word i of the frame. */
  lemma {:induction false} CheckWordsValues(bytes: seq<bv8>)
    requires |bytes| % 3 == 0
    ensures CheckWords(bytes).Ok? ==>
      forall i: nat :: i < |CheckWords(bytes).value| ==> CheckWords(bytes).value[i] == WordAt(bytes, i)
  {
    if |bytes| > 0 && CheckWords(bytes).Ok? {
      var ws := CheckWords(bytes).value;
      var rest := CheckWords(bytes[3..]).value;
      assert ws == [WordAt(bytes, 0)] + rest;
      DropWord(bytes);
      CheckWordsValues(bytes[3..]);
      forall i: nat | i < |ws|
        ensures ws[i] == WordAt(bytes, i)
      {
        if i > 0 {
          assert ws[i] == rest[i - 1];
        }
      }
    }
  }

  /** Read count data words: a failed transfer or a short frame is an I2C error,
      and a checksum mismatch in any word is ErrBadCrc. */
  function ReadWords(reply: Reply, count: nat): (r: Result<seq<bv16>>)
    ensures r.Ok? <==> reply.Received? && |reply.bytes| == 3 * count && AllWordsValid(reply.bytes)
    ensures r.Ok? ==>
      |r.value| == count && forall i: nat :: i < count ==> r.value[i] == WordAt(reply.bytes, i)
    ensures r.Fail? ==> r.error == (if reply.Received? && |reply.bytes| == 3 * count
                                    then ErrBadCrc else ErrI2cError)
  {
    match reply
    case BusError => Fail(ErrI2cError)
    case Received(bytes) =>
      if |bytes| != 3 * count then Fail(ErrI2cError)
      else
        CheckWordsValid(bytes);
        CheckWordsValues(bytes);
        CheckWords(bytes)
  }

  /** The frame the sensor sends for a sequence of words: each word high byte
      first, followed by its checksum. */
  function EncodeWords(ws: seq<bv16>): (b: seq<bv8>)
    ensures |b| == 3 * |ws|
  {
    if ws == [] then []
    else [Crc.HighByte(ws[0]), Crc.LowByte(ws[0]), Crc.Crc8(ws[0])] + EncodeWords(ws[1..])
  }

  /** A frame built by the sensor passes validation and yields the words it carries. */
  lemma {:induction false} CheckEncoded(ws: seq<bv16>)
    ensures CheckWords(EncodeWords(ws)) == Ok(ws)
  {
    if ws != [] {
      var b := EncodeWords(ws);
      Crc.WordOfBytes(ws[0]);
      assert b[3..] == EncodeWords(ws[1..]);
      CheckEncoded(ws[1..]);
      assert [ws[0]] + ws[1..] == ws;
    }
  }

  /** A frame that passes validation is exactly the frame of the words it yields. */
  lemma {:induction false} EncodeChecked(bytes: seq<bv8>)
    requires |bytes| % 3 == 0 && CheckWords(bytes).Ok?
    ensures EncodeWords(CheckWords(bytes).value) == bytes
  {
    if |bytes| > 0 {
      var ws := CheckWords(bytes).value;
      var w := Crc.Word(bytes[0], bytes[1]);
      assert ws == [w] + CheckWords(bytes[3..]).value;
      EncodeChecked(bytes[3..]);
      assert ws[1..] == CheckWords(bytes[3..]).value;
      assert EncodeWords(ws) == [bytes[0], bytes[1], bytes[2]] + bytes[3..];
    }
  }

  /** Read back, the frame of any words gives those words. */
  lemma ReadEncoded(ws: seq<bv16>)
    ensures ReadWords(Received(EncodeWords(ws)), |ws|) == Ok(ws)
  {
    CheckEncoded(ws);
  }

  /** A frame that reads successfully is the frame of the words it yields. */
  lemma EncodeRead(bytes: seq<bv8>, count: nat)
    requires ReadWords(Received(bytes), count).Ok?
    ensures EncodeWords(ReadWords(Received(bytes), count).value) == bytes
  {
    EncodeChecked(bytes);
  }

  /** The frame with bit k of byte p inverted. */
  function FlipBitAt(bytes: seq<bv8>, p: nat, k: nat): (b: seq<bv8>)
    requires p < |bytes| && k < 8
    ensures |b| == |bytes| && b[p] != bytes[p]
    ensures forall q :: 0 <= q < |b| && q != p ==> b[q] == bytes[q]
  {
    bytes[p := bytes[p] ^ (1 << k)]
  }

  /** Inverting any one bit anywhere in a frame built by the sensor makes
      validation fail with ErrBadCrc. */
  lemma {:induction false} CheckCorrupted(ws: seq<bv16>, p: nat, k: nat)
    requires p < 3 * |ws| && k < 8
    ensures CheckWords(FlipBitAt(EncodeWords(ws), p, k)) == Fail(ErrBadCrc)
  {
    if p < 3 {
      FirstWordCorrupted(ws, p, k);
    } else {
      assert FlipBitAt(EncodeWords(ws), p, k)[3..] == FlipBitAt(EncodeWords(ws[1..]), p - 3, k);
      CheckCorrupted(ws[1..], p - 3, k);
    }
  }

  /** An inverted bit in the first word of a frame fails that word's check. */
  lemma FirstWordCorrupted(ws: seq<bv16>, p: nat, k: nat)
    requires ws != [] && p < 3 && k < 8
    ensures !WordValid(FlipBitAt(EncodeWords(ws), p, k), 0)
  {
    var b := FlipBitAt(EncodeWords(ws), p, k);
    Crc.WordOfBytes(ws[0]);
    if p < 2 {
      Crc.WordByteChangeDetected(Crc.HighByte(ws[0]), Crc.LowByte(ws[0]), b[0], b[1]);
    }
  }

  /** A single inverted bit in a received frame is reported as ErrBadCrc. */
  lemma ReadCorrupted(ws: seq<bv16>, p: nat, k: nat)
    requires p < 3 * |ws| && k < 8
    ensures ReadWords(Received(FlipBitAt(EncodeWords(ws), p, k)), |ws|) == Fail(ErrBadCrc)
  {
    CheckCorrupted(ws, p, k);
  }

  // Product identification

  /** The product ids the driver knows (SDP3x_product_id_SDP31 / _SDP32). */
  const ProductIdSdp31: bv32 := 0x03010101
  const ProductIdSdp32: bv32 := 0x03010201

  /** The sensor variants the driver recognises. */
  datatype Sensor = Sdp31 | Sdp32

  function ProductId(s: Sensor): bv32 {
    match s
    case Sdp31 => ProductIdSdp31
    case Sdp32 => ProductIdSdp32
  }

  /** The sensor a product id identifies, if any. */
  function SensorOf(id: bv32): (r: Option<Sensor>)
    ensures r.Some? <==> id == ProductIdSdp31 || id == ProductIdSdp32
    ensures r.Some? ==> ProductId(r.value) == id
  {
    if id == ProductIdSdp31 then Some(Sdp31)
    else if id == ProductIdSdp32 then Some(Sdp32)
    else None
  }

  /** Each sensor is recognised from its own product id. */
  lemma SensorOfProductId(s: Sensor)
    ensures SensorOf(ProductId(s)) == Some(s)
  {
  }

  /** The product id as two words, high half first. */
  function IdWords(id: bv32): (ws: seq<bv16>)
    ensures |ws| == 2
  {
    [(id >> 16) as bv16, (id & 0xFFFF) as bv16]
  }

  /** The product id whose high half is hi and low half is lo. */
  function ProductIdOfWords(hi: bv16, lo: bv16): (id: bv32)
    ensures IdWords(id) == [hi, lo]
  {
    ((hi as bv32) << 16) | (lo as bv32)
  }

  /** Splitting a product id into its words and joining them gives it back. */
  lemma ProductIdOfIdWords(id: bv32)
    ensures ProductIdOfWords(IdWords(id)[0], IdWords(id)[1]) == id
  {
  }

  /** readProductId: the id carried by two validated words after the two
      identification commands, or 0 when the transfer or a checksum fails. */
  function ReadProductId(reply: Reply): (id: bv32)
    ensures ReadWords(reply, 2).Fail? ==> id == 0
    ensures ReadWords(reply, 2).Ok? ==> IdWords(id) == ReadWords(reply, 2).value
  {
    match ReadWords(reply, 2)
    case Fail(_) => 0
    case Ok(ws) => ProductIdOfWords(ws[0], ws[1])
  }

  /** The commands written before the id is read, in order. */
  function ProductIdCommands(): (cs: seq<seq<bv8>>)
    ensures cs == [[0x36, 0x7C], [0xE1, 0x02]]
  {
    [Code(ReadProductIdPart1), Code(ReadProductIdPart2)]
  }

  /** The id the sensor sends is the id read. */
  lemma ReadProductIdOfFrame(id: bv32)
    ensures ReadProductId(Received(EncodeWords(IdWords(id)))) == id
  {
    ReadEncoded(IdWords(id));
    ProductIdOfIdWords(id);
  }

  /** A single inverted bit in the id frame makes readProductId return 0. */
  lemma ReadProductIdCorrupted(id: bv32, p: nat, k: nat)
    requires p < 2 * 3 && k < 8
    ensures ReadProductId(Received(FlipBitAt(EncodeWords(IdWords(id)), p, k))) == 0
  {
    ReadCorrupted(IdWords(id), p, k);
  }

  /** The error value of readProductId is never taken for a sensor. */
  lemma FailedReadNotRecognised(reply: Reply)
    requires ReadWords(reply, 2).Fail?
    ensures SensorOf(ReadProductId(reply)) == None
  {
  }

  /** The sensor check of begin: the product id read is one the driver knows. */
  function Begin(reply: Reply): (ok: bool)
    ensures ok <==>
      ReadWords(reply, 2).Ok? && (ReadProductId(reply) == ProductIdSdp31 || ReadProductId(reply) == ProductIdSdp32)
  {
    SensorOf(ReadProductId(reply)).Some?
  }

  /** begin accepts each known sensor answering with its own id. */
  lemma BeginAcceptsSensor(s: Sensor)
    ensures Begin(Received(EncodeWords(IdWords(ProductId(s)))))
  {
    ReadProductIdOfFrame(ProductId(s));
  }

  // Measurements

  /** The three signed words of a measurement, before conversion to physical units. */
  datatype RawMeasurement = RawMeasurement(pressure: Int16, temperature: Int16, scaleFactor: Int16)

  /** The frame of a measurement: each signed value sent as its 16 bits. */
  function MeasurementWords(m: RawMeasurement): (ws: seq<bv16>)
    ensures |ws| == 3
  {
    [AsUnsigned(m.pressure), AsUnsigned(m.temperature), AsUnsigned(m.scaleFactor)]
  }

  /** readMeasurement: three validated words read as signed values; any failure
      returns its status and no values (all or nothing). */
  function ReadMeasurement(reply: Reply): (r: Result<RawMeasurement>)
    ensures r.Ok? <==> ReadWords(reply, 3).Ok?
    ensures r.Fail? ==> r.error == ReadWords(reply, 3).error && r.error != Success
    ensures r.Ok? ==> MeasurementWords(r.value) == ReadWords(reply, 3).value
  {
    match ReadWords(reply, 3)
    case Fail(e) => Fail(e)
    case Ok(ws) =>
      UnsignedOfSigned(ws[0]);
      UnsignedOfSigned(ws[1]);
      UnsignedOfSigned(ws[2]);
      Ok(RawMeasurement(AsSigned(ws[0]), AsSigned(ws[1]), AsSigned(ws[2])))
  }

  /** The measurement the sensor sends is the measurement read. */
  lemma ReadMeasurementOfFrame(m: RawMeasurement)
    ensures ReadMeasurement(Received(EncodeWords(MeasurementWords(m)))) == Ok(m)
  {
    ReadEncoded(MeasurementWords(m));
    SignedOfUnsigned(m.pressure);
    SignedOfUnsigned(m.temperature);
    SignedOfUnsigned(m.scaleFactor);
  }

  /** A single inverted bit anywhere in a measurement frame, the checksum bytes
      included, makes readMeasurement return SDP3X_ERR_BAD_CRC. */
  lemma ReadMeasurementCorrupted(m: RawMeasurement, p: nat, k: nat)
    requires p < 9 && k < 8
    ensures Status(ReadMeasurement(Received(FlipBitAt(EncodeWords(MeasurementWords(m)), p, k))))
         == ErrBadCrc
  {
    ReadCorrupted(MeasurementWords(m), p, k);
  }
}
