/**
  How the command methods shape a reply's payload into their results:
  measurement words, an identifier string, version strings and the
  signed bytes of the status register.
 */
module Payload {
  import opened Wrappers
  import opened ByteSeq
  import opened Shdlc

  // ---------------------------------------------------------------------------
  // read_values: ten big-endian 32-bit words

  /** The big-endian value of four bytes: the bit pattern `struct.unpack(">f")` reads. */
  function Word(b: Bytes): (w: nat)
    requires |b| == 4
    ensures w < 0x1_0000_0000
  {
    ((b[0] as int * 256 + b[1] as int) * 256 + b[2] as int) * 256 + b[3] as int
  }

  /** The four big-endian bytes of a 32-bit word. */
  function WordBytes(w: nat): (b: Bytes)
    requires w < 0x1_0000_0000
    ensures |b| == 4
  {
    var w1 := w / 256;
    var w2 := w1 / 256;
    [(w2 / 256) as Byte, (w2 % 256) as Byte, (w1 % 256) as Byte, (w % 256) as Byte]
  }

  /**
    MicroPython's `struct.unpack` only checks that the buffer is at least as
    long as the format needs; bytes beyond are ignored.
   */
  predicate FortyBytes(payload: Option<RxData>) {
    payload.Some? && payload.value.Data? && |payload.value.bytes| >= 40
  }

  /**
    `struct.unpack(">ffffffffff", payload)` on the first 40 bytes, or ten zeros
    when it raises: when the payload is absent, is the integer 0, or is
    shorter than 40 bytes.
   */
  function Measurements(payload: Option<RxData>): (values: seq<nat>)
    ensures |values| == 10
    ensures forall i :: 0 <= i < 10 ==> values[i] < 0x1_0000_0000
    ensures !FortyBytes(payload) ==> forall i :: 0 <= i < 10 ==> values[i] == 0
    ensures FortyBytes(payload) ==>
      forall i :: 0 <= i < 10 ==> WordBytes(values[i]) == payload.value.bytes[4 * i..4 * i + 4]
  {
    if FortyBytes(payload) then
      var b := payload.value.bytes;
      var values := seq(10, i requires 0 <= i < 10 => Word(b[4 * i..4 * i + 4]));
      assert forall i :: 0 <= i < 10 ==> WordBytes(values[i]) == b[4 * i..4 * i + 4] by {
        forall i | 0 <= i < 10 {
          WordBytesOfWord(b[4 * i..4 * i + 4]);
        }
      }
      values
    else
      seq(10, i => 0)
  }

  /** Division by 256 splits off the low byte. */
  lemma SplitLowByte(n: nat, q: nat, r: nat)
    requires n == 256 * q + r && r < 256
    ensures n / 256 == q && n % 256 == r
  {
  }

  lemma WordBytesOfWord(b: Bytes)
    requires |b| == 4
    ensures WordBytes(Word(b)) == b
  {
    var w := Word(b);
    var w1 := (b[0] as int * 256 + b[1] as int) * 256 + b[2] as int;
    var w2 := b[0] as int * 256 + b[1] as int;
    SplitLowByte(w, w1, b[3] as int);
    SplitLowByte(w1, w2, b[2] as int);
    SplitLowByte(w2, b[0] as int, b[1] as int);
    var c := WordBytes(w);
    assert c[0] == b[0] && c[1] == b[1] && c[2] == b[2] && c[3] == b[3];
  }

  lemma WordOfWordBytes(w: nat)
    requires w < 0x1_0000_0000
    ensures Word(WordBytes(w)) == w
  {
    var w1 := w / 256;
    var w2 := w1 / 256;
    var b := WordBytes(w);
    assert b[3] as int == w % 256 && b[2] as int == w1 % 256;
    assert b[1] as int == w2 % 256 && b[0] as int == w2 / 256;
  }

  /** The big-endian bytes of a sequence of words, as the sensor sends ten of them. */
  function PackWords(ws: seq<nat>): (b: Bytes)
    requires forall i :: 0 <= i < |ws| ==> ws[i] < 0x1_0000_0000
    ensures |b| == 4 * |ws|
  {
    if ws == [] then [] else WordBytes(ws[0]) + PackWords(ws[1..])
  }

  lemma {:induction false} PackWordsAt(ws: seq<nat>, i: nat)
    requires forall j :: 0 <= j < |ws| ==> ws[j] < 0x1_0000_0000
    requires i < |ws|
    ensures PackWords(ws)[4 * i..4 * i + 4] == WordBytes(ws[i])
  {
    var b := PackWords(ws);
    if i == 0 {
      assert b[..4] == WordBytes(ws[0]);
    } else {
      PackWordsAt(ws[1..], i - 1);
      assert b[4 * i..4 * i + 4] == PackWords(ws[1..])[4 * (i - 1)..4 * (i - 1) + 4];
    }
  }

  /** Ten words sent in a 40-byte payload come back as the same ten words. */
  lemma MeasurementsOfPacked(ws: seq<nat>)
    requires |ws| == 10
    requires forall i :: 0 <= i < 10 ==> ws[i] < 0x1_0000_0000
    ensures Measurements(Some(Data(PackWords(ws)))) == ws
  {
    var values := Measurements(Some(Data(PackWords(ws))));
    forall i | 0 <= i < 10
      ensures values[i] == ws[i]
    {
      PackWordsAt(ws, i);
      WordOfWordBytes(values[i]);
      WordOfWordBytes(ws[i]);
    }
  }

  /** Bytes after the first 40 do not change the measurements. */
  lemma MeasurementsIgnoreTrailingBytes(b: Bytes, extra: Bytes)
    requires |b| == 40
    ensures Measurements(Some(Data(b + extra))) == Measurements(Some(Data(b)))
  {
    var u, v := Measurements(Some(Data(b + extra))), Measurements(Some(Data(b)));
    forall i | 0 <= i < 10
      ensures u[i] == v[i]
    {
      assert (b + extra)[4 * i..4 * i + 4] == b[4 * i..4 * i + 4];
      WordOfWordBytes(u[i]);
      WordOfWordBytes(v[i]);
    }
  }

  // ---------------------------------------------------------------------------
  // device_info: the identifier without its terminating byte

  /** `payload[0:-1]`: the payload without its last (null) byte. */
  function DeviceInfoText(payload: Option<RxData>): (text: Bytes)
    requires payload.Some? && payload.value.Data?
    ensures var b := payload.value.bytes;
      if b == [] then text == [] else text + [b[|b| - 1]] == b
  {
    var b := payload.value.bytes;
    if |b| == 0 then [] else b[..|b| - 1]
  }

  /** A null-terminated identifier comes back without its terminator. */
  lemma DeviceInfoOfTerminated(text: Bytes)
    ensures DeviceInfoText(Some(Data(text + [0x00]))) == text
  {
    var b := text + [0x00];
    assert b[..|b| - 1] == text;
  }

  // ---------------------------------------------------------------------------
  // read_version: decimal strings of unsigned bytes

  function DigitChar(d: nat): char
    requires d < 10
  {
    ('0' as int + d) as char
  }

  predicate AllDigits(s: string) {
    forall i :: 0 <= i < |s| ==> '0' <= s[i] <= '9'
  }

  /** Python's `str(n)` for a natural number: decimal digits, no leading zero. */
  function Decimal(n: nat): (s: string)
    ensures |s| >= 1 && AllDigits(s)
    ensures s[0] == '0' ==> n == 0 && s == "0"
    decreases n
  {
    if n < 10 then [DigitChar(n)] else Decimal(n / 10) + [DigitChar(n % 10)]
  }

  /** The number a string of decimal digits denotes. */
  function DecimalValue(s: string): nat
    requires AllDigits(s)
  {
    if s == [] then 0 else DecimalValue(s[..|s| - 1]) * 10 + (s[|s| - 1] as int - '0' as int)
  }

  lemma {:induction false} DecimalValueOfDecimal(n: nat)
    ensures DecimalValue(Decimal(n)) == n
    decreases n
  {
    if n >= 10 {
      var s := Decimal(n);
      assert s[..|s| - 1] == Decimal(n / 10);
      DecimalValueOfDecimal(n / 10);
    }
  }

  /** The index of the first '.' in `s`, or `|s|` when there is none. */
  function DotIndex(s: string): (k: nat)
    ensures k <= |s|
    ensures k < |s| ==> s[k] == '.'
    ensures forall i :: 0 <= i < k ==> s[i] != '.'
  {
    if s == [] || s[0] == '.' then 0 else 1 + DotIndex(s[1..])
  }

  /** Reads "major.minor" back into its two numbers. */
  function ParseDotted(s: string): Option<(nat, nat)> {
    var k := DotIndex(s);
    if k < |s| && AllDigits(s[..k]) && AllDigits(s[k + 1..]) then
      Some((DecimalValue(s[..k]), DecimalValue(s[k + 1..])))
    else
      None
  }

  lemma DottedRoundTrip(major: nat, minor: nat)
    ensures ParseDotted(Decimal(major) + "." + Decimal(minor)) == Some((major, minor))
  {
    var a, b := Decimal(major), Decimal(minor);
    var s := a + "." + b;
    var k := DotIndex(s);
    assert s[|a|] == '.';
    assert forall i :: 0 <= i < |a| ==> s[i] == a[i];
    assert k == |a|;
    assert s[..k] == a;
    assert s[k + 1..] == b;
    DecimalValueOfDecimal(major);
    DecimalValueOfDecimal(minor);
  }

  /** Firmware version, hardware revision and protocol version, as `read_version` returns them. */
  datatype Versions = Versions(firmware: string, hardware: string, protocol: string)

  predicate VersionPayload(payload: Option<RxData>) {
    payload.Some? && payload.value.Data? && |payload.value.bytes| >= 7
  }

  /** Bytes 0 and 1, byte 3, and bytes 5 and 6 of the payload as unsigned decimal strings. */
  function VersionStrings(payload: Option<RxData>): Versions
    requires VersionPayload(payload)
  {
    var b := payload.value.bytes;
    Versions(
      Decimal(b[0] as int) + "." + Decimal(b[1] as int),
      Decimal(b[3] as int),
      Decimal(b[5] as int) + "." + Decimal(b[6] as int))
  }

  /** Each version string reads back as the payload bytes it was made from. */
  lemma VersionStringsRoundTrip(payload: Option<RxData>)
    requires VersionPayload(payload)
    ensures var b, v := payload.value.bytes, VersionStrings(payload);
      && ParseDotted(v.firmware) == Some((b[0] as nat, b[1] as nat))
      && AllDigits(v.hardware) && DecimalValue(v.hardware) == b[3] as nat
      && ParseDotted(v.protocol) == Some((b[5] as nat, b[6] as nat))
  {
    var b := payload.value.bytes;
    DottedRoundTrip(b[0] as nat, b[1] as nat);
    DecimalValueOfDecimal(b[3] as nat);
    DottedRoundTrip(b[5] as nat, b[6] as nat);
  }

  // ---------------------------------------------------------------------------
  // read_register: four signed bytes

  /** A byte read as a two's-complement signed value (`struct` format "b"). */
  function Signed(x: Byte): int {
    if x < 0x80 then x as int else x as int - 256
  }

  /** `struct.unpack("bbbb", payload)`: the first four bytes, signed; MicroPython ignores any beyond. */
  function RegisterBytes(payload: Option<RxData>): (r: seq<int>)
    requires payload.Some? && payload.value.Data? && |payload.value.bytes| >= 4
    ensures |r| == 4
    ensures forall i :: 0 <= i < 4 ==> -128 <= r[i] < 128 && r[i] % 256 == payload.value.bytes[i] as int
  {
    var b := payload.value.bytes;
    seq(4, i requires 0 <= i < 4 => Signed(b[i]))
  }
}
