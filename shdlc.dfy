/**
  The SHDLC link framing used on the SPS30's serial line: a body of address,
  command, length (or state and length, from the device) and data, closed by a
  checksum, byte-stuffed, and wrapped in 0x7E delimiters.
 */
module Shdlc {
  import opened Wrappers
  import opened ByteSeq

  /** Start and stop delimiter of every frame. */
  const Flag: Byte := 0x7E
  /** The escape byte that introduces a stuffed byte. */
  const Esc: Byte := 0x7D
  const Xon: Byte := 0x11
  const Xoff: Byte := 0x13
  /** The one device on the link answers at address 0. */
  const Address: Byte := 0x00

  /** The four values that may not travel unescaped between the delimiters. */
  predicate Reserved(b: Byte) {
    b == Flag || b == Esc || b == Xon || b == Xoff
  }

  /** The second bytes of the four escape pairs: a reserved value XOR 0x20. */
  predicate EscapeCode(b: Byte) {
    b == 0x5E || b == 0x5D || b == 0x31 || b == 0x33
  }

  // ---------------------------------------------------------------------------
  // Checksum

  /** `n & 0xFF` for a non-negative `n`. */
  function LowByte(n: nat): Byte {
    (n % 256) as Byte
  }

  /** `b ^ 0xFF`: all eight bits of the byte inverted. */
  function Invert(b: Byte): Byte {
    255 - b
  }

  /** The low byte of the sum of all bytes, inverted. */
  function Checksum(body: Bytes): Byte {
    Invert(LowByte(Sum(body)))
  }

  lemma ModShift(n: nat, m: nat)
    ensures (n + m) % 256 == (n % 256 + m) % 256
  {
    assert n == 256 * (n / 256) + n % 256;
  }

  /** Body and checksum together sum to 0xFF modulo 256. */
  lemma ChecksumCompletesSum(body: Bytes)
    ensures (Sum(body) + Checksum(body) as int) % 256 == 0xFF
  {
    var n := Sum(body);
    ModShift(n, 255 - n % 256);
  }

  lemma LowByteTest(low: int, x: int)
    requires 0 <= low < 256 && 0 <= x < 256
    ensures (low + x) % 256 == 255 <==> x == 255 - low
  {
    if low + x >= 256 {
      assert (low + x) % 256 == low + x - 256;
    }
  }
  lemma ModDiffers(a: int, d: int)
    requires -256 < d < 256 && d != 0
    ensures (a + d) % 256 != a % 256
  {
    var q := a / 256;
    assert a == 256 * q + a % 256;
    if d > 0 {
      if a % 256 + d < 256 {
        assert (a + d) % 256 == a % 256 + d by { assert a + d == 256 * q + (a % 256 + d); }
      } else {
        assert (a + d) % 256 == a % 256 + d - 256 by { assert a + d == 256 * (q + 1) + (a % 256 + d - 256); }
      }
    } else {
      if a % 256 + d >= 0 {
        assert (a + d) % 256 == a % 256 + d by { assert a + d == 256 * q + (a % 256 + d); }
      } else {
        assert (a + d) % 256 == a % 256 + d + 256 by { assert a + d == 256 * (q - 1) + (a % 256 + d + 256); }
      }
    }
  }

  /**
    The receiver's test "the last byte equals the checksum of the bytes before
    it" holds exactly when all the bytes, checksum included, sum to 0xFF modulo 256.
   */
  lemma ChecksumTestIsSumTest(u: Bytes)
    requires |u| >= 1
    ensures u[|u| - 1] == Checksum(u[..|u| - 1]) <==> Sum(u) % 256 == 0xFF
  {
    var prefix, last := u[..|u| - 1], u[|u| - 1];
    var n := Sum(prefix);
    var c := Checksum(prefix);
    assert Sum(u) == n + last as int;
    assert c as int == 255 - n % 256;
    ModShift(n, last as int);
    LowByteTest(n % 256, last as int);
  }

  lemma SumUpdate(u: Bytes, k: nat, v: Byte)
    requires k < |u|
    ensures Sum(u[k := v]) == Sum(u) - u[k] as int + v as int
  {
    assert u == u[..k] + [u[k]] + u[k + 1..];
    assert u[k := v] == u[..k] + [v] + u[k + 1..];
    SumAppend(u[..k] + [u[k]], u[k + 1..]);
    SumAppend(u[..k] + [v], u[k + 1..]);
    SumAppend(u[..k], [u[k]]);
    SumAppend(u[..k], [v]);
  }

  /** Changing any single byte of a frame that passes the checksum makes it fail. */
  lemma ChecksumDetectsSingleByteError(u: Bytes, k: nat, v: Byte)
    requires k < |u| && v != u[k]
    requires Sum(u) % 256 == 0xFF
    ensures Sum(u[k := v]) % 256 != 0xFF
  {
    SumUpdate(u, k, v);
    ModDiffers(Sum(u), v as int - u[k] as int);
  }

  // ---------------------------------------------------------------------------
  // Byte stuffing

  /** The byte that follows 0x7D in place of a reserved value: the value XOR 0x20. */
  function EscapeCodeOf(b: Byte): (c: Byte)
    requires Reserved(b)
    ensures EscapeCode(c)
    ensures c as bv8 == b as bv8 ^ 0x20
  {
    if b == Flag then 0x5E else if b == Esc then 0x5D else if b == Xon then 0x31 else 0x33
  }

  /** Single-pass escape of one byte: a reserved byte becomes 0x7D and its escape code. */
  function EscapeByte(b: Byte): Bytes {
    if Reserved(b) then [Esc, EscapeCodeOf(b)] else [b]
  }

  function ReservedCount(s: Bytes): nat {
    if s == [] then 0 else (if Reserved(s[0]) then 1 else 0) + ReservedCount(s[1..])
  }

  /** The reference transparency rule, applied in one left-to-right pass. */
  function Escape(s: Bytes): (r: Bytes)
    ensures |r| == |s| + ReservedCount(s)
  {
    if s == [] then [] else EscapeByte(s[0]) + Escape(s[1..])
  }

  /**
    What may appear between the delimiters: no 0x7E, 0x11 or 0x13, and every
    0x7D is followed by one of the four escape codes.
   */
  predicate Transparent(t: Bytes) {
    && (forall i :: 0 <= i < |t| ==> t[i] != Flag && t[i] != Xon && t[i] != Xoff)
    && (forall i :: 0 <= i < |t| && t[i] == Esc ==> i + 1 < |t| && EscapeCode(t[i + 1]))
  }

  lemma TransparentConcat(a: Bytes, b: Bytes)
    requires Transparent(a) && Transparent(b)
    ensures Transparent(a + b)
  {
    var ab := a + b;
    forall i | 0 <= i < |ab| && ab[i] == Esc
      ensures i + 1 < |ab| && EscapeCode(ab[i + 1])
    {
      if i < |a| {
        assert a[i] == Esc;
        assert ab[i + 1] == a[i + 1];
      } else {
        assert b[i - |a|] == Esc;
        assert ab[i + 1] == b[i + 1 - |a|];
      }
    }
  }

  lemma {:induction false} EscapeIsTransparent(s: Bytes)
    ensures Transparent(Escape(s))
  {
    if s != [] {
      EscapeIsTransparent(s[1..]);
      TransparentConcat(EscapeByte(s[0]), Escape(s[1..]));
    }
  }

  /** Escaping leaves a string without reserved bytes as it is. */
  lemma {:induction false} EscapeOfPlain(s: Bytes)
    requires forall i :: 0 <= i < |s| ==> !Reserved(s[i])
    ensures Escape(s) == s
  {
    if s != [] {
      EscapeOfPlain(s[1..]);
      assert [s[0]] + s[1..] == s;
    }
  }

  /** The driver's stuffing as written: four chained replaces, 0x7D first. */
  function Stuff(s: Bytes): Bytes {
    var s1 := Replace(s, [Esc], [Esc, 0x5D]);
    var s2 := Replace(s1, [Flag], [Esc, 0x5E]);
    var s3 := Replace(s2, [Xon], [Esc, 0x31]);
    Replace(s3, [Xoff], [Esc, 0x33])
  }

  lemma StuffAppend(a: Bytes, b: Bytes)
    ensures Stuff(a + b) == Stuff(a) + Stuff(b)
  {
    var a1, b1 := Replace(a, [Esc], [Esc, 0x5D]), Replace(b, [Esc], [Esc, 0x5D]);
    var a2, b2 := Replace(a1, [Flag], [Esc, 0x5E]), Replace(b1, [Flag], [Esc, 0x5E]);
    var a3, b3 := Replace(a2, [Xon], [Esc, 0x31]), Replace(b2, [Xon], [Esc, 0x31]);
    ReplaceByteAppend(a, b, [Esc], [Esc, 0x5D]);
    ReplaceByteAppend(a1, b1, [Flag], [Esc, 0x5E]);
    ReplaceByteAppend(a2, b2, [Xon], [Esc, 0x31]);
    ReplaceByteAppend(a3, b3, [Xoff], [Esc, 0x33]);
  }

  lemma StuffByte(c: Byte)
    ensures Stuff([c]) == EscapeByte(c)
  {
    var p1, p2, p3, p4 := [Esc], [Flag], [Xon], [Xoff];
    var r1, r2, r3, r4 := [Esc, 0x5D], [Esc, 0x5E], [Esc, 0x31], [Esc, 0x33];
    var s1 := Replace([c], p1, r1);
    var s2 := Replace(s1, p2, r2);
    var s3 := Replace(s2, p3, r3);
    ReplaceByteSingleton(c, p1, r1);
    if c == Esc {
      ReplaceAbsent(s1, p2, r2);
      ReplaceAbsent(s2, p3, r3);
      ReplaceAbsent(s3, p4, r4);
    } else {
      ReplaceByteSingleton(c, p2, r2);
      if c == Flag {
        ReplaceAbsent(s2, p3, r3);
        ReplaceAbsent(s3, p4, r4);
      } else {
        ReplaceByteSingleton(c, p3, r3);
        if c == Xon {
          ReplaceAbsent(s3, p4, r4);
        } else {
          ReplaceByteSingleton(c, p4, r4);
        }
      }
    }
  }

  /**
    Because 0x7D is replaced first, no later replace re-matches the output of
    an earlier one: the chained replaces equal the single-pass escape.
   */
  lemma {:induction false} StuffIsEscape(s: Bytes)
    ensures Stuff(s) == Escape(s)
  {
    if s != [] {
      assert s == [s[0]] + s[1..];
      StuffAppend([s[0]], s[1..]);
      StuffByte(s[0]);
      StuffIsEscape(s[1..]);
    }
  }

  /** The receiver's un-stuffing as written: four chained replaces, 0x7D 0x5D last. */
  function Unstuff(t: Bytes): Bytes {
    var t1 := Replace(t, [Esc, 0x5E], [Flag]);
    var t2 := Replace(t1, [Esc, 0x31], [Xon]);
    var t3 := Replace(t2, [Esc, 0x33], [Xoff]);
    Replace(t3, [Esc, 0x5D], [Esc])
  }

  /** No two-byte pattern starting with 0x7D can straddle a cut after `t`. */
  predicate EndsClear(t: Bytes) {
    t == [] || t[|t| - 1] != Esc
  }

  lemma UnstuffEscapeByte(c: Byte)
    ensures EndsClear(EscapeByte(c))
    ensures EndsClear(Replace(EscapeByte(c), [Esc, 0x5E], [Flag]))
    ensures EndsClear(Replace(Replace(EscapeByte(c), [Esc, 0x5E], [Flag]), [Esc, 0x31], [Xon]))
    ensures EndsClear(Replace(Replace(Replace(EscapeByte(c), [Esc, 0x5E], [Flag]), [Esc, 0x31], [Xon]), [Esc, 0x33], [Xoff]))
    ensures Unstuff(EscapeByte(c)) == [c]
  {
    var u := EscapeByte(c);
    var p1, p2, p3, p4 := [Esc, 0x5E], [Esc, 0x31], [Esc, 0x33], [Esc, 0x5D];
    var u1 := Replace(u, p1, [Flag]);
    var u2 := Replace(u1, p2, [Xon]);
    var u3 := Replace(u2, p3, [Xoff]);
    ReplacePairShort(u, p1, [Flag]);
    ReplacePairShort(u1, p2, [Xon]);
    ReplacePairShort(u2, p3, [Xoff]);
    ReplacePairShort(u3, p4, [Esc]);
  }

  /** The chained un-stuffing, 0x7D 0x5D last, undoes the escape of every byte string. */
  lemma {:induction false} UnstuffEscape(s: Bytes)
    ensures Unstuff(Escape(s)) == s
  {
    if s != [] {
      var u, r := EscapeByte(s[0]), Escape(s[1..]);
      var u1, r1 := Replace(u, [Esc, 0x5E], [Flag]), Replace(r, [Esc, 0x5E], [Flag]);
      var u2, r2 := Replace(u1, [Esc, 0x31], [Xon]), Replace(r1, [Esc, 0x31], [Xon]);
      var u3, r3 := Replace(u2, [Esc, 0x33], [Xoff]), Replace(r2, [Esc, 0x33], [Xoff]);
      UnstuffEscapeByte(s[0]);
      ReplacePairAppend(u, r, [Esc, 0x5E], [Flag]);
      ReplacePairAppend(u1, r1, [Esc, 0x31], [Xon]);
      ReplacePairAppend(u2, r2, [Esc, 0x33], [Xoff]);
      ReplacePairAppend(u3, r3, [Esc, 0x5D], [Esc]);
      UnstuffEscape(s[1..]);
      assert [s[0]] + s[1..] == s;
    }
  }

  /**
    The order matters: with 0x7D 0x5D undone first, the escaped pair of
    0x7D 0x5E (`7D 5D 5E`) would come back as 0x7E.
   */
  lemma UnstuffOrderMatters()
    ensures Escape([Esc, 0x5E]) == [Esc, 0x5D, 0x5E]
    ensures Unstuff([Esc, 0x5D, 0x5E]) == [Esc, 0x5E]
    ensures Replace(Replace([Esc, 0x5D, 0x5E], [Esc, 0x5D], [Esc]), [Esc, 0x5E], [Flag]) == [Flag]
  {
    UnstuffEscapeByte(Esc);
    UnstuffEscape([Esc, 0x5E]);
    ReplacePairAppend([Esc, 0x5D], [0x5E], [Esc, 0x5D], [Esc]);
    ReplacePairShort([Esc, 0x5D], [Esc, 0x5D], [Esc]);
    ReplacePairShort([0x5E], [Esc, 0x5D], [Esc]);
    assert [Esc] + [0x5E] == [Esc, 0x5E];
    ReplacePairShort([Esc, 0x5E], [Esc, 0x5E], [Flag]);
  }

  // ---------------------------------------------------------------------------
  // Frames

  /** Python's `raw[1:-1]`: drops the first and the last byte, whatever they are. */
  function Trim(raw: Bytes): Bytes {
    if |raw| <= 2 then [] else raw[1..|raw| - 1]
  }

  /** A body with its checksum appended, stuffed and delimited. */
  function Encode(body: Bytes): Bytes {
    [Flag] + Escape(body + [Checksum(body)]) + [Flag]
  }

  /** Address, command, parameter length and parameters of a request. */
  function RequestBody(command: Byte, params: Bytes): Bytes
    requires |params| <= 255
  {
    [Address, command, |params| as Byte] + params
  }

  /** The sum over a request body: command byte, parameter count and parameters. */
  lemma BodySum(command: Byte, params: Bytes)
    requires |params| <= 255
    ensures Sum(RequestBody(command, params)) == command as int + |params| + Sum(params)
  {
    var head: Bytes := [Address, command, |params| as Byte];
    SumAppend(head, params);
    assert head[..2][..1] == [Address];
  }

  /** The frame the driver writes for `command` with `params`. */
  function Frame(command: Byte, params: Bytes): Bytes
    requires |params| <= 255
  {
    Encode(RequestBody(command, params))
  }

  /** Trimming and un-stuffing any encoded body gives back the body and its checksum. */
  lemma UnstuffTrimEncode(body: Bytes)
    ensures Trim(Encode(body)) == Escape(body + [Checksum(body)])
    ensures Unstuff(Trim(Encode(body))) == body + [Checksum(body)]
  {
    var e := Escape(body + [Checksum(body)]);
    assert |e| >= 1;
    assert Encode(body)[1..|Encode(body)| - 1] == e;
    UnstuffEscape(body + [Checksum(body)]);
  }

  /**
    A request frame starts and ends with 0x7E, carries no reserved byte
    unescaped between them, and grows by one byte per reserved byte.
   */
  lemma FrameDelimited(command: Byte, params: Bytes)
    requires |params| <= 255
    ensures var f := Frame(command, params);
      && |f| == |params| + 6 + ReservedCount(RequestBody(command, params) + [Checksum(RequestBody(command, params))])
      && f[0] == Flag && f[|f| - 1] == Flag
      && Transparent(f[1..|f| - 1])
  {
    var body := RequestBody(command, params);
    var u := body + [Checksum(body)];
    var f := Frame(command, params);
    EscapeIsTransparent(u);
    assert f == [Flag] + Escape(u) + [Flag];
    assert f[1..|f| - 1] == Escape(u);
  }

  /**
    Un-stuffed, a request frame reads address 0, the command, the parameter
    length, the parameters, and a checksum that makes the whole sum 0xFF.
   */
  lemma FrameFields(command: Byte, params: Bytes)
    requires |params| <= 255
    ensures var u := Unstuff(Trim(Frame(command, params)));
      && |u| == |params| + 4
      && u[0] == Address && u[1] == command && u[2] as int == |params|
      && u[3..|u| - 1] == params
      && Sum(u) % 256 == 0xFF
  {
    var body := RequestBody(command, params);
    var u := body + [Checksum(body)];
    UnstuffTrimEncode(body);
    RequestFields(command, params);
    assert Sum(u) == Sum(body) + Checksum(body) as int;
    ChecksumCompletesSum(body);
  }

  lemma RequestFields(command: Byte, params: Bytes)
    requires |params| <= 255
    ensures var u := RequestBody(command, params) + [Checksum(RequestBody(command, params))];
      && |u| == |params| + 4
      && u[0] == Address && u[1] == command && u[2] as int == |params|
      && u[3..|u| - 1] == params
  {
    var body := RequestBody(command, params);
    var u := body + [Checksum(body)];
    assert u[3..|u| - 1] == params;
    assert u[2] == |params| as Byte;
  }

  // ---------------------------------------------------------------------------
  // Replies

  /** What the driver returns as payload: the data bytes, or the integer 0 for a zero length byte. */
  datatype RxData = Data(bytes: Bytes) | ZeroLength

  /** `[payload, state]`, or `[None, None]` when nothing usable arrived. */
  datatype Reply = NoReply | Reply(data: RxData, state: Byte) {
    function Payload(): Option<RxData> {
      if NoReply? then None else Some(data)
    }
    function State(): Option<Byte> {
      if NoReply? then None else Some(state)
    }
  }

  /** Python's `u[4:-1]` on an un-stuffed frame of at least four bytes. */
  function DataBytes(u: Bytes): Bytes
    requires |u| >= 4
  {
    if |u| > 4 then u[4..|u| - 1] else []
  }

  /**
    The received bytes the driver can process without an index error: none at
    all, or a frame whose un-stuffed form is not empty and, when its checksum
    passes, has the state and length bytes.
   */
  predicate Decodable(raw: Option<Bytes>) {
    raw.None? ||
    var u := Unstuff(Trim(raw.value));
    |u| >= 1 && (u[|u| - 1] == Checksum(u[..|u| - 1]) ==> |u| >= 4)
  }

  /** What `read` makes of what the UART returned. */
  function Decode(raw: Option<Bytes>): Reply
    requires Decodable(raw)
  {
    if raw.None? then NoReply
    else
      var u := Unstuff(Trim(raw.value));
      if u[|u| - 1] != Checksum(u[..|u| - 1]) then NoReply
      else Reply(if u[3] != 0 then Data(DataBytes(u)) else ZeroLength, u[2])
  }

  /**
    A device reply built by the same framing decodes to its state and data.
    Neither the address nor the command is checked, the declared length is
    not compared with the data, and a nonzero state is data, not a failure.
   */
  lemma DecodeEncode(address: Byte, command: Byte, state: Byte, length: Byte, data: Bytes)
    ensures var raw := Some(Encode([address, command, state, length] + data));
      && Decodable(raw)
      && Decode(raw) == Reply(if length != 0 then Data(data) else ZeroLength, state)
  {
    var body := [address, command, state, length] + data;
    var u := body + [Checksum(body)];
    UnstuffTrimEncode(body);
    assert u[..|u| - 1] == body;
    assert |u| > 4 ==> u[4..|u| - 1] == data;
  }

  /** `read` accepts a frame exactly when its un-stuffed bytes sum to 0xFF modulo 256. */
  lemma DecodeAcceptsIff(raw: Option<Bytes>)
    requires Decodable(raw)
    ensures Decode(raw).Reply? <==> raw.Some? && Sum(Unstuff(Trim(raw.value))) % 256 == 0xFF
  {
    if raw.Some? {
      ChecksumTestIsSumTest(Unstuff(Trim(raw.value)));
    }
  }

  /** The delimiter values are never checked. */
  lemma DecodeIgnoresDelimiters(first: Byte, last: Byte, t: Bytes)
    requires Decodable(Some([Flag] + t + [Flag]))
    ensures Decodable(Some([first] + t + [last]))
    ensures Decode(Some([first] + t + [last])) == Decode(Some([Flag] + t + [Flag]))
  {
    assert Trim([first] + t + [last]) == t;
    assert Trim([Flag] + t + [Flag]) == t;
  }
}
