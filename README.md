# SDP3x driver core in Dafny

A model of the protocol core of the SparkFun Arduino driver for the Sensirion
SDP31/SDP32 differential-pressure sensors, as declared in
`SparkFun_SDP3x_Arduino_Library.h`:

- **CRC-8** (`crc.dfy`, `crc_table.dfy`, `checksum.dfy`). Every 2-byte data word
  the sensor sends is followed by a CRC-8: polynomial 0x31 (x^8 + x^5 + x^4 + 1),
  initial value 0xFF, most significant bit first, high byte first, no reflection
  and no final XOR.
  - `Crc` defines the checksum bit by bit. It includes the register loop of the
    polynomial build of `_CRC8` as a method proved against that definition, and
    the error-detection properties.
  - `CrcTable` holds the sixteen rows of `_CRC8LookupTable` exactly as written. It
    proves every entry equal to eight shift steps of its index, and the
    table-driven `_CRC8` equal to the bitwise one.
  - `Checksum` is the driver's `_CRC8` / `_CRC8signed` pair. The compile-time
    switch `SDP3X_LOOKUP_TABLE` becomes a boolean parameter.
- **Command catalog** (`commands.dfy`, with `Option` in `wrappers.dfy`).
  - The twelve 2-byte command codes, and a parser that recovers the command from
    its code.
  - The flag-driven choice made by `startContinuousMeasurement(massFlow,
    averaging)` and `triggeredMeasurement(massFlow, clockStretching)`, with the
    header's default arguments.
- **Answers from the sensor** (`sdp3x.dfy`).
  - The three-valued `SDP3XERR` status.
  - Validation of received frames: three bytes per word (high, low, CRC), all or
    nothing.
  - `readProductId`: two validated words, 0 on any failure.
  - Recognition of the SDP31 and SDP32 product ids, and the sensor check of
    `begin`.
  - `readMeasurement`, up to the raw signed words.

An operation that reads from the bus takes the bus's answer as a parameter. That
answer is either the received bytes or a transfer failure.

Three facts about the header shape the model:
- The class's private fields (header lines 114-124) are the bus port, the
  device address and the debug settings. There is no field for a measurement
  mode, so the model has no measurement-mode state machine.
- `SDP3XERR` (header lines 48-52) has exactly three values: SUCCESS,
  ERR_BAD_CRC and ERR_I2C_ERROR. A device with an unknown product id makes
  `begin` return false rather than report an error.
- Soft reset (header lines 98-100) is a general call to bus address 0x00 with
  code 0x06. It is not one of the catalog commands.

## Model

| member | source | states |
|---|---|---|
| `Crc.Word` | SparkFun_SDP3x_Arduino_Library/src/SparkFun_SDP3x_Arduino_Library.h:127 | the checked word is its high byte followed by its low byte: the bytes of `Word(hi, lo)` are `hi` and `lo` |
| `Crc.WordOfBytes` | SparkFun_SDP3x_Arduino_Library/src/SparkFun_SDP3x_Arduino_Library.h:127 | every word is rebuilt from its two bytes |
| `Crc.Crc8Bytes` | SparkFun_SDP3x_Arduino_Library/src/SparkFun_SDP3x_Arduino_Library.h:127 | the checksum of a word is the register after the high byte and then the low byte, starting from 0xFF |
| `Crc.CheckValue` | SparkFun_SDP3x_Arduino_Library/src/SparkFun_SDP3x_Arduino_Library.h:127 | the Sensirion check value: the checksum of 0xBEEF is 0x92 |
| `Crc.Crc8Polynomial` | SparkFun_SDP3x_Arduino_Library/src/SparkFun_SDP3x_Arduino_Library.h:126-127 | the polynomial build of `_CRC8` returns the checksum of its word, for every 16-bit input |
| `Crc.ShiftOutByte` | SparkFun_SDP3x_Arduino_Library/src/SparkFun_SDP3x_Arduino_Library.h:127 | the inner loop of eight conditional shift-and-XOR steps equals eight steps of the bitwise definition |
| `Crc.ShiftStepLinear` | SparkFun_SDP3x_Arduino_Library/src/SparkFun_SDP3x_Arduino_Library.h:127 | one shift step distributes over XOR |
| `Crc.ShiftsLinear` | SparkFun_SDP3x_Arduino_Library/src/SparkFun_SDP3x_Arduino_Library.h:127 | any number of shift steps distributes over XOR |
| `Crc.ShiftsZero` | SparkFun_SDP3x_Arduino_Library/src/SparkFun_SDP3x_Arduino_Library.h:127 | shift steps map a register to zero only if it was zero |
| `Crc.ShiftsInjective` | SparkFun_SDP3x_Arduino_Library/src/SparkFun_SDP3x_Arduino_Library.h:127 | shift steps keep distinct registers distinct |
| `Crc.ByteStepInjective` | SparkFun_SDP3x_Arduino_Library/src/SparkFun_SDP3x_Arduino_Library.h:127 | two different bytes fed into the same register give different registers |
| `Crc.ByteStepInjectiveRegister` | SparkFun_SDP3x_Arduino_Library/src/SparkFun_SDP3x_Arduino_Library.h:127 | the same byte fed into two different registers gives different registers |
| `Crc.OneByteChangeDetected` | SparkFun_SDP3x_Arduino_Library/src/SparkFun_SDP3x_Arduino_Library.h:127 | changing exactly one of the two bytes changes the checksum |
| `Crc.WordByteChangeDetected` | SparkFun_SDP3x_Arduino_Library/src/SparkFun_SDP3x_Arduino_Library.h:127 | a word received with one of its bytes altered has a different checksum |
| `Crc.ByteParts` | SparkFun_SDP3x_Arduino_Library/src/SparkFun_SDP3x_Arduino_Library.h:127 | an error pattern XORed into a word splits over its high and low byte, and is nonzero iff one of its bytes is |
| `Crc.SingleByteErrorDetected` | SparkFun_SDP3x_Arduino_Library/src/SparkFun_SDP3x_Arduino_Library.h:127 | every nonzero error pattern confined to one byte changes the checksum |
| `Crc.SingleBitFlipDetected` | SparkFun_SDP3x_Arduino_Library/src/SparkFun_SDP3x_Arduino_Library.h:127 | inverting any one of the 16 bits of a word changes its checksum |
| `CrcTable.MaskedStep` | SparkFun_SDP3x_Arduino_Library/src/SparkFun_SDP3x_Arduino_Library.h:132-149 | a branch-free shift step (polynomial masked in by the top bit) equals the conditional one |
| `CrcTable.ShiftsAreBitContributions` | SparkFun_SDP3x_Arduino_Library/src/SparkFun_SDP3x_Arduino_Library.h:132-149 | eight shift steps of a byte equal the XOR of the contributions of its set bits (0x31, 0x62, 0xC4, 0xB9, 0x43, 0x86, 0x3D, 0x7A) |
| `CrcTable.Row0Agrees` | SparkFun_SDP3x_Arduino_Library/src/SparkFun_SDP3x_Arduino_Library.h:133 | every entry of row 0x0 of the table is eight shift steps of its index |
| `CrcTable.Row1Agrees` | SparkFun_SDP3x_Arduino_Library/src/SparkFun_SDP3x_Arduino_Library.h:134 | the same for row 0x1 |
| `CrcTable.Row2Agrees` | SparkFun_SDP3x_Arduino_Library/src/SparkFun_SDP3x_Arduino_Library.h:135 | the same for row 0x2 |
| `CrcTable.Row3Agrees` | SparkFun_SDP3x_Arduino_Library/src/SparkFun_SDP3x_Arduino_Library.h:136 | the same for row 0x3 |
| `CrcTable.Row4Agrees` | SparkFun_SDP3x_Arduino_Library/src/SparkFun_SDP3x_Arduino_Library.h:137 | the same for row 0x4 |
| `CrcTable.Row5Agrees` | SparkFun_SDP3x_Arduino_Library/src/SparkFun_SDP3x_Arduino_Library.h:138 | the same for row 0x5 |
| `CrcTable.Row6Agrees` | SparkFun_SDP3x_Arduino_Library/src/SparkFun_SDP3x_Arduino_Library.h:139 | the same for row 0x6 |
| `CrcTable.Row7Agrees` | SparkFun_SDP3x_Arduino_Library/src/SparkFun_SDP3x_Arduino_Library.h:140 | the same for row 0x7 |
| `CrcTable.Row8Agrees` | SparkFun_SDP3x_Arduino_Library/src/SparkFun_SDP3x_Arduino_Library.h:141 | the same for row 0x8 |
| `CrcTable.Row9Agrees` | SparkFun_SDP3x_Arduino_Library/src/SparkFun_SDP3x_Arduino_Library.h:142 | the same for row 0x9 |
| `CrcTable.RowAAgrees` | SparkFun_SDP3x_Arduino_Library/src/SparkFun_SDP3x_Arduino_Library.h:143 | the same for row 0xA |
| `CrcTable.RowBAgrees` | SparkFun_SDP3x_Arduino_Library/src/SparkFun_SDP3x_Arduino_Library.h:144 | the same for row 0xB |
| `CrcTable.RowCAgrees` | SparkFun_SDP3x_Arduino_Library/src/SparkFun_SDP3x_Arduino_Library.h:145 | the same for row 0xC |
| `CrcTable.RowDAgrees` | SparkFun_SDP3x_Arduino_Library/src/SparkFun_SDP3x_Arduino_Library.h:146 | the same for row 0xD |
| `CrcTable.RowEAgrees` | SparkFun_SDP3x_Arduino_Library/src/SparkFun_SDP3x_Arduino_Library.h:147 | the same for row 0xE |
| `CrcTable.RowFAgrees` | SparkFun_SDP3x_Arduino_Library/src/SparkFun_SDP3x_Arduino_Library.h:148 | the same for row 0xF |
| `CrcTable.LookupTableEntry` | SparkFun_SDP3x_Arduino_Library/src/SparkFun_SDP3x_Arduino_Library.h:132-149 | entry `[i >> 4][i & 0xF]` is byte i run through eight shift steps, for all 256 bytes |
| `CrcTable.LookupTableIsCrcTable` | SparkFun_SDP3x_Arduino_Library/src/SparkFun_SDP3x_Arduino_Library.h:132-149 | the hand-written table is the CRC-8 byte table |
| `CrcTable.TableLinear` | SparkFun_SDP3x_Arduino_Library/src/SparkFun_SDP3x_Arduino_Library.h:132-149 | a CRC-8 byte table is linear over XOR: `T[a ^ b] == T[a] ^ T[b]` |
| `CrcTable.LookupByte` | SparkFun_SDP3x_Arduino_Library/src/SparkFun_SDP3x_Arduino_Library.h:130-149 | one table lookup on `crc ^ byte` does the work of feeding the byte and shifting eight times |
| `CrcTable.Crc8LookupTable` | SparkFun_SDP3x_Arduino_Library/src/SparkFun_SDP3x_Arduino_Library.h:126-149 | the table build of `_CRC8` returns the checksum of its word, so it agrees with the polynomial build on all 65536 inputs |
| `Checksum.Crc8` | SparkFun_SDP3x_Arduino_Library/src/SparkFun_SDP3x_Arduino_Library.h:126-127 | `_CRC8` returns the same checksum whether or not `SDP3X_LOOKUP_TABLE` is defined |
| `Checksum.UnsignedValue` | SparkFun_SDP3x_Arduino_Library/src/SparkFun_SDP3x_Arduino_Library.h:127 | the unsigned value of a word lies in 0 .. 65535 |
| `Checksum.AsUnsigned` | SparkFun_SDP3x_Arduino_Library/src/SparkFun_SDP3x_Arduino_Library.h:128 | the bits of an `int16_t` read as unsigned have the value x, or x + 65536 when x is negative (two's complement) |
| `Checksum.AsSigned` | SparkFun_SDP3x_Arduino_Library/src/SparkFun_SDP3x_Arduino_Library.h:128 | a word read as `int16_t` is negative exactly when its unsigned value is at least 0x8000 |
| `Checksum.UnsignedOfSigned` | SparkFun_SDP3x_Arduino_Library/src/SparkFun_SDP3x_Arduino_Library.h:128 | reading a 16-bit word as `int16_t` and reinterpreting it as unsigned gives back the same word |
| `Checksum.UnsignedValueInjective` | SparkFun_SDP3x_Arduino_Library/src/SparkFun_SDP3x_Arduino_Library.h:128 | two words with the same unsigned value are the same word, so the unsigned reading loses nothing |
| `Checksum.ByteOf` | SparkFun_SDP3x_Arduino_Library/src/SparkFun_SDP3x_Arduino_Library.h:128 | the byte built from a number below 256 has that number as its value |
| `Checksum.SignedOfUnsigned` | SparkFun_SDP3x_Arduino_Library/src/SparkFun_SDP3x_Arduino_Library.h:128 | reinterpreting an `int16_t` as unsigned loses nothing: reading the bits back as signed gives the same value |
| `Checksum.Crc8Signed` | SparkFun_SDP3x_Arduino_Library/src/SparkFun_SDP3x_Arduino_Library.h:128 | `_CRC8signed(x)` is the checksum of the same 16 bits read as unsigned, in either build |
| `Commands.Code` | SparkFun_SDP3x_Arduino_Library/src/SparkFun_SDP3x_Arduino_Library.h:59-74 | every command is two bytes |
| `Commands.Parse` | SparkFun_SDP3x_Arduino_Library/src/SparkFun_SDP3x_Arduino_Library.h:59-74 | a byte pair is recognised as a command only if it is that command's code |
| `Commands.ParseCode` | SparkFun_SDP3x_Arduino_Library/src/SparkFun_SDP3x_Arduino_Library.h:59-74 | every command's code is recognised as that command |
| `Commands.CodesDistinct` | SparkFun_SDP3x_Arduino_Library/src/SparkFun_SDP3x_Arduino_Library.h:59-74 | the twelve codes are pairwise distinct: two commands have the same code iff they are the same command |
| `Commands.ContinuousCommand` | SparkFun_SDP3x_Arduino_Library/src/SparkFun_SDP3x_Arduino_Library.h:107 | the command chosen by startContinuousMeasurement is continuous, mass-flow iff `massFlow`, and averaging till read iff `averaging` |
| `Commands.TriggeredCommand` | SparkFun_SDP3x_Arduino_Library/src/SparkFun_SDP3x_Arduino_Library.h:110 | the command chosen by triggeredMeasurement is triggered, mass-flow iff `massFlow`, and clock stretching iff `clockStretching` |
| `Commands.ContinuousSelectionExact` | SparkFun_SDP3x_Arduino_Library/src/SparkFun_SDP3x_Arduino_Library.h:107 | each continuous command is chosen by exactly one flag pair: its own |
| `Commands.TriggeredSelectionExact` | SparkFun_SDP3x_Arduino_Library/src/SparkFun_SDP3x_Arduino_Library.h:110 | each triggered command is chosen by exactly one flag pair: its own |
| `Commands.StartContinuousMeasurement` | SparkFun_SDP3x_Arduino_Library/src/SparkFun_SDP3x_Arduino_Library.h:107 | the bytes written are recognised as the chosen continuous command |
| `Commands.TriggeredMeasurement` | SparkFun_SDP3x_Arduino_Library/src/SparkFun_SDP3x_Arduino_Library.h:110 | the bytes written are recognised as the chosen triggered command |
| `Commands.StopContinuousMeasurement` | SparkFun_SDP3x_Arduino_Library/src/SparkFun_SDP3x_Arduino_Library.h:108 | the bytes written are recognised as the stop command |
| `Commands.EnterSleep` | SparkFun_SDP3x_Arduino_Library/src/SparkFun_SDP3x_Arduino_Library.h:103 | the bytes written are recognised as the sleep command |
| `Commands.DefaultCommands` | SparkFun_SDP3x_Arduino_Library/src/SparkFun_SDP3x_Arduino_Library.h:107-110 | the default arguments write 0x36 0x08 (mass flow, no averaging) and 0x36 0x24 (mass flow, no clock stretching) |
| `Commands.ContinuousAndTriggeredDisjoint` | SparkFun_SDP3x_Arduino_Library/src/SparkFun_SDP3x_Arduino_Library.h:59-69 | no flag setting of one measurement operation writes a code of the other |
| `Commands.StartsAreNotStopOrSleep` | SparkFun_SDP3x_Arduino_Library/src/SparkFun_SDP3x_Arduino_Library.h:59-71 | no measurement start writes the stop or sleep code, and stop and sleep differ |
| `Sdp3x.ErrValue` | SparkFun_SDP3x_Arduino_Library/src/SparkFun_SDP3x_Arduino_Library.h:48-52 | status values are 0, 1, 2, and 0 is SUCCESS alone |
| `Sdp3x.ErrOfValue` | SparkFun_SDP3x_Arduino_Library/src/SparkFun_SDP3x_Arduino_Library.h:48-52 | exactly the numbers 0, 1 and 2 name a status, and each names the status with that value |
| `Sdp3x.ErrValueRoundTrip` | SparkFun_SDP3x_Arduino_Library/src/SparkFun_SDP3x_Arduino_Library.h:48-52 | every status is recovered from its value |
| `Sdp3x.CheckWords` | SparkFun_SDP3x_Arduino_Library/src/SparkFun_SDP3x_Arduino_Library.h:50 | a validated frame yields one word per three bytes, and a validation failure is always ERR_BAD_CRC |
| `Sdp3x.CheckWordsValid` | SparkFun_SDP3x_Arduino_Library/src/SparkFun_SDP3x_Arduino_Library.h:50 | a frame passes validation iff every word's checksum matches |
| `Sdp3x.CheckedWordsValid` | SparkFun_SDP3x_Arduino_Library/src/SparkFun_SDP3x_Arduino_Library.h:50 | a frame passes validation only if every word's checksum matches |
| `Sdp3x.UncheckedWordInvalid` | SparkFun_SDP3x_Arduino_Library/src/SparkFun_SDP3x_Arduino_Library.h:50 | a frame fails validation only if some word's checksum does not match |
| `Sdp3x.CheckWordsValues` | SparkFun_SDP3x_Arduino_Library/src/SparkFun_SDP3x_Arduino_Library.h:50 | word i of a validated frame is the i-th high/low byte pair of the frame |
| `Sdp3x.DropWord` | SparkFun_SDP3x_Arduino_Library/src/SparkFun_SDP3x_Arduino_Library.h:50 | removing the first three bytes of a frame shifts its words down by one |
| `Sdp3x.ReadWords` | SparkFun_SDP3x_Arduino_Library/src/SparkFun_SDP3x_Arduino_Library.h:48-52 | a read succeeds iff the transfer succeeded with exactly three bytes per word and every checksum matches. A transfer failure or short frame is ERR_I2C_ERROR, and a checksum mismatch is ERR_BAD_CRC |
| `Sdp3x.EncodeWords` | SparkFun_SDP3x_Arduino_Library/src/SparkFun_SDP3x_Arduino_Library.h:126-128 | the frame of n words is 3n bytes |
| `Sdp3x.CheckEncoded` | SparkFun_SDP3x_Arduino_Library/src/SparkFun_SDP3x_Arduino_Library.h:126-128 | the frame of any words passes validation and yields those words |
| `Sdp3x.EncodeChecked` | SparkFun_SDP3x_Arduino_Library/src/SparkFun_SDP3x_Arduino_Library.h:126-128 | a frame that passes validation is the frame of the words it yields |
| `Sdp3x.ReadEncoded` | SparkFun_SDP3x_Arduino_Library/src/SparkFun_SDP3x_Arduino_Library.h:126-128 | reading the frame of any words gives those words |
| `Sdp3x.EncodeRead` | SparkFun_SDP3x_Arduino_Library/src/SparkFun_SDP3x_Arduino_Library.h:126-128 | a frame that reads successfully is the frame of the words read |
| `Sdp3x.FlipBitAt` | SparkFun_SDP3x_Arduino_Library/src/SparkFun_SDP3x_Arduino_Library.h:50 | the corrupted frame differs from the original in byte p only |
| `Sdp3x.FirstWordCorrupted` | SparkFun_SDP3x_Arduino_Library/src/SparkFun_SDP3x_Arduino_Library.h:50 | one inverted bit among the first three bytes of a frame makes the first word's checksum mismatch |
| `Sdp3x.CheckCorrupted` | SparkFun_SDP3x_Arduino_Library/src/SparkFun_SDP3x_Arduino_Library.h:50 | one inverted bit anywhere in a frame, the checksum bytes included, makes validation fail with ERR_BAD_CRC |
| `Sdp3x.ReadCorrupted` | SparkFun_SDP3x_Arduino_Library/src/SparkFun_SDP3x_Arduino_Library.h:50 | reading a frame with one inverted bit returns ERR_BAD_CRC |
| `Sdp3x.SensorOf` | SparkFun_SDP3x_Arduino_Library/src/SparkFun_SDP3x_Arduino_Library.h:77-78 | a product id is recognised iff it is 0x03010101 (SDP31) or 0x03010201 (SDP32), and a recognised sensor has that id |
| `Sdp3x.SensorOfProductId` | SparkFun_SDP3x_Arduino_Library/src/SparkFun_SDP3x_Arduino_Library.h:77-78 | each sensor is recognised from its own id |
| `Sdp3x.IdWords` | SparkFun_SDP3x_Arduino_Library/src/SparkFun_SDP3x_Arduino_Library.h:93-96 | a product id is sent as two words |
| `Sdp3x.ProductIdOfWords` | SparkFun_SDP3x_Arduino_Library/src/SparkFun_SDP3x_Arduino_Library.h:93-96 | joining two words into a 32-bit id and splitting it again gives the two words |
| `Sdp3x.ProductIdOfIdWords` | SparkFun_SDP3x_Arduino_Library/src/SparkFun_SDP3x_Arduino_Library.h:93-96 | splitting a 32-bit id into words and joining them gives the id |
| `Sdp3x.ReadProductId` | SparkFun_SDP3x_Arduino_Library/src/SparkFun_SDP3x_Arduino_Library.h:93-96 | readProductId returns 0 when the read fails, and otherwise the id whose two halves are the words read |
| `Sdp3x.ProductIdCommands` | SparkFun_SDP3x_Arduino_Library/src/SparkFun_SDP3x_Arduino_Library.h:73-74 | the id is requested with 0x36 0x7C and then 0xE1 0x02 |
| `Sdp3x.ReadProductIdOfFrame` | SparkFun_SDP3x_Arduino_Library/src/SparkFun_SDP3x_Arduino_Library.h:93-96 | the id the sensor sends is the id returned |
| `Sdp3x.ReadProductIdCorrupted` | SparkFun_SDP3x_Arduino_Library/src/SparkFun_SDP3x_Arduino_Library.h:93-96 | one inverted bit in the id frame makes readProductId return 0 |
| `Sdp3x.FailedReadNotRecognised` | SparkFun_SDP3x_Arduino_Library/src/SparkFun_SDP3x_Arduino_Library.h:77-96 | the error value 0 of a failed readProductId is never taken for a sensor |
| `Sdp3x.Begin` | SparkFun_SDP3x_Arduino_Library/src/SparkFun_SDP3x_Arduino_Library.h:89-94 | the sensor check of begin passes iff the id read validates and is SDP31's or SDP32's |
| `Sdp3x.BeginAcceptsSensor` | SparkFun_SDP3x_Arduino_Library/src/SparkFun_SDP3x_Arduino_Library.h:77-94 | begin's check accepts both known sensors |
| `Sdp3x.MeasurementWords` | SparkFun_SDP3x_Arduino_Library/src/SparkFun_SDP3x_Arduino_Library.h:112 | a measurement is sent as three words |
| `Sdp3x.ReadMeasurement` | SparkFun_SDP3x_Arduino_Library/src/SparkFun_SDP3x_Arduino_Library.h:112 | readMeasurement succeeds iff its three-word read does. On success the pressure, temperature and scale factor are the three words read, in that order, reinterpreted as `int16_t`. A failure returns that read's non-SUCCESS status and no values |
| `Sdp3x.ReadMeasurementOfFrame` | SparkFun_SDP3x_Arduino_Library/src/SparkFun_SDP3x_Arduino_Library.h:112 | the signed pressure, temperature and scale factor the sensor sends are the values read |
| `Sdp3x.ReadMeasurementCorrupted` | SparkFun_SDP3x_Arduino_Library/src/SparkFun_SDP3x_Arduino_Library.h:112 | one inverted bit anywhere in a measurement frame makes readMeasurement return ERR_BAD_CRC |

## Left out

- SparkFun_SDP3x_Arduino_Library.cpp is not part of this model. The bodies of
  `_CRC8`, `readProductId`, `readMeasurement` and `begin` follow the header's
  declarations and comments, together with the frame layout documented for the
  SDP3x:
  - each data word is sent as high byte, low byte, then CRC-8;
  - the product id is the first two words of the answer to the two
    identification commands;
  - a measurement is three words: differential pressure, temperature, scale
    factor.
- The serial number words that follow the product id in the sensor's answer are
  not modelled.
- I2C transport, because it is bus I/O through a library that is not part of
  this model. This covers:
  - `TwoWire` and the port and address wiring of `begin` and the class fields;
  - the general call (address 0x00, code 0x06) that `softReset` sends;
  - the status the write-only operations return, which depends only on whether
    the bus acknowledged the write.
  Only the bytes those operations write are modelled. `DefaultAddress` records
  0x21 as context.
- Debug output (`enableDebugging`, `_debugPort`, `_printDebug`): a logging side
  channel.
- The floating-point conversion inside `readMeasurement` (pressure divided by the
  scale factor, temperature divided by 200). `Sdp3x.ReadMeasurement` stops at the
  three validated signed words.
- Settling delays, and what sleep and wake do in the sensor: these are timing
  and hardware.
- A measurement-mode state machine: the class keeps no field for one.
