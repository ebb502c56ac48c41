# SPS30 SHDLC driver model

A Dafny model of `sps30.py`, a MicroPython driver for the Sensirion SPS30
particulate-matter sensor. The driver talks to the sensor over a UART with the
SHDLC link protocol:

- a request body is address 0x00, a command id, the parameter count and the
  parameters;
- the body is closed by a checksum, the low byte of the byte sum inverted;
- the reserved values 0x7E, 0x7D, 0x11 and 0x13 are byte-stuffed as 0x7D
  followed by the value XOR 0x20 (the octet-stuffing rule of section 4.2 of
  RFC 1662);
- the result is wrapped in 0x7E delimiters.

A reply is trimmed, un-stuffed and checked against its checksum. Its state
byte and payload are then shaped by the command that asked for it.

Modules, one file each:

- `wrappers.dfy` — `Wrappers`: the `Option` type.
- `byteseq.dfy` — `ByteSeq`: octets as integers 0 to 255 (what indexing Python
  `bytes` yields), their running sum, and Python's
  `bytes.replace` as a function `Replace`, with the lemmas that let chained
  replaces be reasoned about piece by piece.
- `shdlc.dfy` — `Shdlc`: the link framing.
  - `Checksum`.
  - `Escape`, the single-pass reference stuffing.
  - `Stuff` and `Unstuff`, the four chained replaces exactly as the driver
    writes them.
  - `Encode`/`Frame`, and `Decode`, which is what `read` returns.
- `payload.dfy` — `Payload`: how `read_values`, `device_info`,
  `read_version` and `read_register` shape a payload.
- `driver.dfy` — `Driver`: the driver itself.
  - A `Uart` class. Its `inbox` is the queue of what successive reads return,
    and its `trace` logs every read and write.
  - The `Sps30` class. `Send` and `Read` are methods with the driver's summing
    loops and replace steps, proved equal to `Frame` and `Decode`. The ten
    command methods are each proved to make exactly the transport calls the
    source makes, in its order, and to return what the source returns.
  - Lemmas that fix every request frame byte for byte, and end-to-end replies.

## Model

| member | source | states |
|---|---|---|
| ByteSeq.Sum | sps30.py:49-52 | the byte sum the loops at lines 49-52 and 96-99 accumulate, as an unbounded integer of at most 255 per byte; `SumAppend` splits it over concatenation |
| ByteSeq.Replace | sps30.py:60-66 | Python's `bytes.replace` as used at lines 60-66 and 85-91: scanning left to right, each non-overlapping occurrence is replaced and replaced output is never rescanned. It has no contract of its own; the `Replace…` lemmas below pin it |
| ByteSeq.SumAppend | sps30.py:49-52 | the byte sum the summing loops accumulate splits over a concatenation |
| ByteSeq.ReplaceByteAppend | sps30.py:60-66 | a `replace` of a one-byte pattern, as each stuffing step is, distributes over concatenation |
| ByteSeq.ReplacePairAppend | sps30.py:85-91 | a `replace` of a two-byte pattern, as each un-stuffing step is, distributes over a cut whose left part does not end in the pattern's first byte |
| ByteSeq.ReplaceAbsent | sps30.py:60-66 | a `replace` whose pattern's first byte does not occur returns the input unchanged |
| ByteSeq.ReplaceByteSingleton | sps30.py:60-66 | on a single byte, a one-byte `replace` gives the replacement exactly when the byte is the pattern, else the byte |
| ByteSeq.ReplacePairShort | sps30.py:85-91 | on at most two bytes, a two-byte `replace` fires only when the input is the whole pattern |
| Shdlc.Checksum | sps30.py:54 | `(sum & 0xFF) ^ 0xFF`, the same expression as line 101. No contract of its own; `ChecksumCompletesSum` and `ChecksumTestIsSumTest` state what it means |
| Shdlc.ChecksumCompletesSum | sps30.py:49-58 | the body sum plus the checksum is 0xFF modulo 256 |
| Shdlc.ChecksumTestIsSumTest | sps30.py:94-104 | the receiver's test (the last byte equals the checksum of the others) passes if and only if all un-stuffed bytes sum to 0xFF modulo 256 |
| Shdlc.ChecksumDetectsSingleByteError | sps30.py:94-104 | changing any one byte of a frame that passes the checksum test makes it fail |
| Shdlc.EscapeCodeOf | sps30.py:60-66 | the byte that follows 0x7D is the reserved value XOR 0x20, one of the four escape codes 0x5E, 0x5D, 0x31, 0x33 |
| Shdlc.Escape | sps30.py:60-66 | the stuffed length is the input length plus the number of reserved bytes in it |
| Shdlc.EscapeIsTransparent | sps30.py:60-66 | stuffed output holds no 0x7E, 0x11 or 0x13, and every 0x7D in it is followed by 0x5E, 0x5D, 0x31 or 0x33 |
| Shdlc.EscapeOfPlain | sps30.py:60-66 | a byte string without reserved bytes is stuffed to itself |
| Shdlc.Stuff | sps30.py:60-66 | the four chained replaces as written, 0x7D first. No contract of its own; `StuffIsEscape` proves it equals `Escape` for every input |
| Shdlc.StuffAppend | sps30.py:60-66 | the four chained replaces distribute over concatenation |
| Shdlc.StuffByte | sps30.py:60-66 | on one byte, the four chained replaces give that byte's escape, with no double escaping of the 0x7D they insert |
| Shdlc.StuffIsEscape | sps30.py:60-66 | for every byte string, the chained replaces (0x7D first) equal the single-pass escape |
| Shdlc.Unstuff | sps30.py:85-91 | the four chained un-stuffing replaces as written, 0x7D 0x5D last. No contract of its own; `UnstuffEscape` proves it inverts `Escape` for every input |
| Shdlc.UnstuffEscapeByte | sps30.py:85-91 | the chained un-stuffing restores each byte from its escape, and no intermediate result ends in 0x7D |
| Shdlc.UnstuffEscape | sps30.py:85-91 | for every byte string, the chained un-stuffing (0x7D 0x5D last) inverts the escape |
| Shdlc.UnstuffOrderMatters | sps30.py:85-91 | the escape of 0x7D 0x5E is 0x7D 0x5D 0x5E; the order as written restores 0x7D 0x5E, while undoing 0x7D 0x5D first would give 0x7E |
| Shdlc.Trim | sps30.py:82 | `raw[1:-1]`, empty for two bytes or fewer. No contract of its own; `DecodeIgnoresDelimiters` and `UnstuffTrimEncode` state what it drops and keeps |
| Shdlc.RequestBody | sps30.py:41-45 | address 0x00, command, parameter count as one byte, parameters. No contract of its own; `RequestFields` and `FrameFields` fix the fields |
| Shdlc.BodySum | sps30.py:43-52 | the sum over a request body is the command byte plus the parameter count plus the parameter sum |
| Shdlc.Encode | sps30.py:58-69 | body plus checksum, escaped and wrapped in 0x7E. No contract of its own; `UnstuffTrimEncode`, `FrameDelimited` and `DecodeEncode` state what it produces |
| Shdlc.Frame | sps30.py:40-69 | the frame `send` writes. No contract of its own; `FrameDelimited`, `FrameFields` and the per-command frame lemmas pin it, and `Sps30.Send` is proved to write it |
| Shdlc.UnstuffTrimEncode | sps30.py:60-69 | trimming and un-stuffing any encoded frame gives back exactly its body and checksum |
| Shdlc.FrameDelimited | sps30.py:60-69 | a request frame begins and ends with 0x7E, is transparent between them, and is as long as the parameters plus 6 plus the reserved-byte count |
| Shdlc.FrameFields | sps30.py:41-58 | un-stuffed, a request frame is address 0x00, the command, a length byte equal to the parameter count, the parameters, and a checksum that brings the sum to 0xFF |
| Shdlc.RequestFields | sps30.py:41-58 | the body and checksum before stuffing have those fields at those positions |
| Shdlc.DataBytes | sps30.py:111-112 | `u[4:-1]`, empty when the un-stuffed frame has four bytes. No contract of its own; `DecodeEncode` shows it gives back the data |
| Shdlc.Decodable | sps30.py:94-109 | the received values `read` handles without an index error: nothing at all, or a non-empty un-stuffed frame that has at least four bytes when its checksum passes |
| Shdlc.Decode | sps30.py:74-117 | what `read` returns. No contract of its own; `DecodeEncode`, `DecodeAcceptsIff` and `DecodeIgnoresDelimiters` state it, and `Sps30.Read` is proved to return it |
| Shdlc.DecodeEncode | sps30.py:82-117 | a reply built by the same framing is accepted; its state is byte 2 and its payload the data, or the integer 0 when byte 3 is 0. Neither the address, the command nor the declared length is checked |
| Shdlc.DecodeAcceptsIff | sps30.py:76-104 | `read` returns a reply if and only if something was read and its un-stuffed bytes sum to 0xFF modulo 256; otherwise it returns `[None, None]` |
| Shdlc.DecodeIgnoresDelimiters | sps30.py:82 | the first and last bytes received are dropped unchecked |
| Payload.Word | sps30.py:164 | four bytes read big-endian are a 32-bit word |
| Payload.Measurements | sps30.py:163-168 | ten 32-bit words, each read from its own four bytes of the first 40 payload bytes; ten zeros when the payload is absent, the integer 0, or shorter than 40 bytes |
| Payload.MeasurementsIgnoreTrailingBytes | sps30.py:163-168 | payload bytes after the first 40 do not change the measurements |
| Payload.WordBytes | sps30.py:164 | the four big-endian bytes of a 32-bit word; `WordBytesOfWord` and `WordOfWordBytes` prove it inverse to `Word` |
| Payload.WordBytesOfWord | sps30.py:164 | reading four bytes as a word and writing the word back gives the same bytes |
| Payload.WordOfWordBytes | sps30.py:164 | writing a 32-bit word as four bytes and reading them gives the same word |
| Payload.PackWords | sps30.py:164 | a sequence of words takes four bytes each |
| Payload.PackWordsAt | sps30.py:164 | word i of a packed sequence sits at bytes 4i to 4i+4 |
| Payload.MeasurementsOfPacked | sps30.py:163-168 | ten words sent in a 40-byte payload come back as the same ten words |
| Payload.DeviceInfoText | sps30.py:259 | the identifier is the payload without its last byte |
| Payload.DeviceInfoOfTerminated | sps30.py:259 | a null-terminated identifier comes back without its terminator |
| Payload.Decimal | sps30.py:278-282 | `str` of a byte value is a non-empty string of decimal digits without a leading zero; 0 is exactly "0" |
| Payload.DecimalValueOfDecimal | sps30.py:278-282 | the digits `str` produces denote the number |
| Payload.DotIndex | sps30.py:278 | finds the first '.' of a string, or its length |
| Payload.DottedRoundTrip | sps30.py:278 | "major.minor" reads back as the two numbers it was made from |
| Payload.VersionStrings | sps30.py:276-282 | firmware "b0.b1", hardware "b3" and protocol "b5.b6" from unsigned payload bytes. No contract of its own; `VersionStringsRoundTrip` reads them back |
| Payload.VersionStringsRoundTrip | sps30.py:276-282 | firmware, hardware and protocol strings read back as payload bytes 0 and 1, byte 3, and bytes 5 and 6 |
| Payload.Signed | sps30.py:305 | a byte as `struct` format "b" reads it, two's complement. No contract of its own; `RegisterBytes` states the range and congruence |
| Payload.RegisterBytes | sps30.py:303-305 | four values in [-128, 128), each congruent modulo 256 to the payload byte at its position (two's complement); bytes after the fourth are ignored |
| Driver.NextAt | sps30.py:76 | what the k-th next `uart.read()` returns: the queued reply, or `None` once the queue is empty. No contract of its own; `Drop` and `Uart.Read` use it |
| Driver.InfoParam | sps30.py:247-251 | the parameter byte `device_info` sends: 00 for "productType", 03 for "serialNumber", none for any other name. No contract of its own; `Sps30.DeviceInfo`, `ProductTypeFrame` and `SerialNumberFrame` use it |
| Driver.Drop | sps30.py:76 | after k reads, the j-th next read returns what the (k+j)-th did before |
| Driver.Uart.constructor | sps30.py:33-34 | a transport with the given replies queued and nothing logged |
| Driver.Uart.Read | sps30.py:76 | returns the next queued reply, or nothing when none is queued; logs the read |
| Driver.Uart.Write | sps30.py:72 | logs the written frame and leaves the queue alone |
| Driver.Sps30.constructor | sps30.py:33-34 | the sensor object owns the given transport |
| Driver.Sps30.Send | sps30.py:40-72 | the summing loop, checksum, four replaces and delimiters write exactly `Frame(command, params)`, once |
| Driver.Sps30.Read | sps30.py:74-117 | the trim, four replaces, summing loop and checks return exactly `Decode` of one read |
| Driver.Sps30.Start | sps30.py:119-135 | flush, write `Frame(0x00, [01 03])`, read; returns the reply's state |
| Driver.Sps30.Stop | sps30.py:137-150 | flush, write `Frame(0x01, [])`, read; returns the reply's state |
| Driver.Sps30.ReadValues | sps30.py:152-173 | flush, write `Frame(0x03, [])`, read; returns the measurements of the payload and the state |
| Driver.Sps30.Sleep | sps30.py:175-188 | flush, write `Frame(0x10, [])`, read; returns the state |
| Driver.Sps30.Wake | sps30.py:190-208 | flush, write `Frame(0x11, [])`, read, write it again, read; returns the state of the last read only |
| Driver.Sps30.TriggerFanClean | sps30.py:210-223 | flush, write `Frame(0x56, [])`, read; returns the state |
| Driver.Sps30.DeviceInfo | sps30.py:242-263 | flush; write `Frame(0xD0, [00])` for "productType", `Frame(0xD0, [03])` for "serialNumber", nothing otherwise; read; returns the payload without its last byte, and the state |
| Driver.Sps30.ReadVersion | sps30.py:265-286 | flush, write `Frame(0xD1, [])`, read; returns the three version strings and the state |
| Driver.Sps30.ReadRegister | sps30.py:288-309 | flush, write `Frame(0xD2, [01])` when clearing or `Frame(0xD2, [00])` otherwise, read; returns the four signed bytes and the state |
| Driver.Sps30.Reset | sps30.py:311-324 | flush, write `Frame(0xD3, [])`, read; returns the state |
| Driver.PlainFrame | sps30.py:43-69 | a request whose bytes and checksum are all unreserved goes out as 0x7E, body, checksum, 0x7E |
| Driver.StartFrame | sps30.py:125 | start writes `7E 00 00 02 01 03 F9 7E` |
| Driver.StopFrame | sps30.py:142 | stop writes `7E 00 01 00 FE 7E` |
| Driver.ReadValuesFrame | sps30.py:157 | read_values writes `7E 00 03 00 FC 7E` |
| Driver.SleepFrame | sps30.py:180 | sleep writes `7E 00 10 00 EF 7E` |
| Driver.WakeFrame | sps30.py:195-201 | wake writes `7E 00 7D 31 00 EE 7E`: its own command byte 0x11 is stuffed |
| Driver.FanCleanFrame | sps30.py:215 | trigger_fan_clean writes `7E 00 56 00 A9 7E` |
| Driver.ProductTypeFrame | sps30.py:247-248 | device_info("productType") writes `7E 00 D0 01 00 2E 7E` |
| Driver.SerialNumberFrame | sps30.py:250-251 | device_info("serialNumber") writes `7E 00 D0 01 03 2B 7E` |
| Driver.ReadVersionFrame | sps30.py:270 | read_version writes `7E 00 D1 00 2E 7E` |
| Driver.ClearRegisterFrame | sps30.py:293-294 | read_register(True) writes `7E 00 D2 01 01 2B 7E` |
| Driver.KeepRegisterFrame | sps30.py:296-297 | read_register(False) writes `7E 00 D2 01 00 2C 7E` |
| Driver.ResetFrame | sps30.py:316 | reset writes `7E 00 D3 00 2C 7E` |
| Driver.StartFrameReadBack | sps30.py:107-117 | read back by `read`, the start request is accepted with state 0x02 (its length byte) and payload `[03]` |
| Driver.WrongChecksumRejected | sps30.py:94-104 | a frame without escape bytes whose last byte is not the checksum of the rest reads as `[None, None]` |
| Driver.CorruptStartFrameRejected | sps30.py:103-104 | the start frame with checksum 0xF9 replaced by 0x06 reads as `[None, None]` |
| Driver.MeasurementReplyEndToEnd | sps30.py:152-173 | a measurement reply carrying ten words decodes, and `read_values` returns those words and the reply's state |
| Driver.DeviceInfoEndToEnd | sps30.py:242-263 | a reply carrying a null-terminated identifier gives back the identifier and the state |

## Left out

- UART construction and the status LED (sps30.py:34, 37) are not modelled. The UART is the abstract `Uart` class: a queue of replies and a log of calls. As written, sps30.py:30 imports only `struct` and `time` while lines 34 and 37 use `machine`, so constructing the driver raises a name error unless `machine` is imported elsewhere; the model assumes it is.
- The 30 ms waits between write and read are not modelled. Only the order flush, write, read is kept.
- Payload.Measurements: returns the ten 32-bit big-endian bit patterns, not IEEE-754 floats. The fallback of ten `0.0` is ten zero words, which have the same bit pattern.
- Payload.DeviceInfoText: returns the bytes of the identifier; `.decode('ascii')` is not modelled. On MicroPython it checks only that the bytes are valid UTF-8 (CPython would also reject bytes above 0x7F), and neither check is modelled.
- Payload.Measurements, Payload.RegisterBytes: follow MicroPython's `struct.unpack`, which needs the buffer to be at least as long as the format and ignores the rest. CPython's would raise on any other length than 40 (or 4), giving ten zeros in `read_values` and an exception in `read_register`; that behaviour is not modelled.
- `read_cleaning_interval` (sps30.py:225-240) is not modelled. Its own comment says it does not work yet.
- Driver.Sps30.Start: models start as intended. As written, line 120 calls `self.self.led.toggle()`, which raises an attribute error before any read or write, so `start` as written never reaches the sensor.
- Driver.Sps30.Read: requires `Decodable`. Python would raise an index error when the un-stuffed frame is empty, or when it passes the checksum with fewer than four bytes.
- Driver.Sps30.DeviceInfo: requires the reply to be accepted and carry data. Slicing `None` or the integer 0 raises in Python.
- Driver.Sps30.ReadVersion: requires at least seven payload bytes, for the same reason.
- Driver.Sps30.ReadRegister: requires at least four payload bytes, because `struct.unpack("bbbb")` raises on a shorter buffer.
- Driver.Sps30.Send: requires at most 255 parameters, so that the parameter count fits the one length byte. No command sends more than two, so the bound never binds; what `to_bytes(1, "big")` does above 255 (CPython raises, some MicroPython versions truncate) is not modelled.
- Behaviour one might expect of the SHDLC protocol that the code does not have; the model follows the code:
  - The start frame `7E 00 00 02 01 03 F9 7E` read back yields state 0x02, the byte at index 2, not 0 (`Driver.StartFrameReadBack`).
  - Version fields are unsigned decimals, because indexing Python `bytes` gives 0 to 255.
