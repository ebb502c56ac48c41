/**
  The SPS30 driver: a serial transport seen through what is written to it and
  what its reads return, and the sensor object whose commands each flush the
  receive buffer, write one request frame and read one reply.
 */
module Driver {
  import opened Wrappers
  import opened ByteSeq
  import opened Shdlc
  import opened Payload

  /** One call on the transport, in the order the driver makes them. */
  datatype Event = ReadCall(got: Option<Bytes>) | WriteCall(sent: Bytes)

  /** What the k-th read from now returns: the queued answer, or nothing once the queue is empty. */
  function NextAt(inbox: seq<Option<Bytes>>, k: nat): Option<Bytes> {
    if k < |inbox| then inbox[k] else None
  }

  /** The queue after k reads. */
  function Drop(inbox: seq<Option<Bytes>>, k: nat): (rest: seq<Option<Bytes>>)
    ensures forall j :: NextAt(rest, j) == NextAt(inbox, k + j)
  {
    if k < |inbox| then inbox[k..] else []
  }

  /** The calls of one command: a flushing read, the request, the reply read. */
  function Exchange(inbox: seq<Option<Bytes>>, request: Bytes): seq<Event> {
    [ReadCall(NextAt(inbox, 0)), WriteCall(request), ReadCall(NextAt(inbox, 1))]
  }

  /**
    The serial port. What the device answers is outside the driver: `inbox`
    holds what successive reads will return; `trace` records every call.
   */
  class Uart {
    var inbox: seq<Option<Bytes>>
    var trace: seq<Event>

    constructor (replies: seq<Option<Bytes>>)
      ensures inbox == replies && trace == []
    {
      inbox := replies;
      trace := [];
    }

    /** Everything buffered so far, or nothing. */
    method Read() returns (got: Option<Bytes>)
      modifies this
      ensures got == NextAt(old(inbox), 0)
      ensures inbox == Drop(old(inbox), 1)
      ensures trace == old(trace) + [ReadCall(got)]
    {
      got := NextAt(inbox, 0);
      inbox := Drop(inbox, 1);
      trace := trace + [ReadCall(got)];
    }

    method Write(frame: Bytes)
      modifies this
      ensures inbox == old(inbox)
      ensures trace == old(trace) + [WriteCall(frame)]
    {
      trace := trace + [WriteCall(frame)];
    }
  }

  /** A reply that decodes and carries data bytes, which the identifier and register commands index. */
  predicate DataReply(raw: Option<Bytes>) {
    Decodable(raw) && Decode(raw).Reply? && Decode(raw).data.Data?
  }

  /** The parameter byte `device_info` sends for a request name, if it knows the name. */
  function InfoParam(requestedInfo: string): Option<Bytes> {
    if requestedInfo == "productType" then Some([0x00])
    else if requestedInfo == "serialNumber" then Some([0x03])
    else None
  }

  class Sps30 {
    const uart: Uart

    constructor (uart: Uart)
      ensures this.uart == uart
    {
      this.uart := uart;
    }

    /** Builds the request frame for `txCommand` and `txParam` and writes it. */
    method Send(txCommand: Byte, txParam: Bytes)
      requires |txParam| <= 255
      modifies uart
      ensures uart.inbox == old(uart.inbox)
      ensures uart.trace == old(uart.trace) + [WriteCall(Frame(txCommand, txParam))]
    {
      var txParamLength := |txParam| as Byte;
      var buildFrame: Bytes := [0x00];
      buildFrame := buildFrame + [txCommand] + [txParamLength] + txParam;
      var sumOfAllBytes := 0;
      for i := 0 to |buildFrame|
        invariant sumOfAllBytes == Sum(buildFrame[..i])
      {
        assert buildFrame[..i + 1][..i] == buildFrame[..i];
        sumOfAllBytes := sumOfAllBytes + buildFrame[i] as int;
      }
      assert buildFrame[..|buildFrame|] == buildFrame;
      assert buildFrame == RequestBody(txCommand, txParam);
      var calculatedChecksum := Invert(LowByte(sumOfAllBytes));
      assert calculatedChecksum == Checksum(buildFrame);
      buildFrame := buildFrame + [calculatedChecksum];
      ghost var unstuffed := buildFrame;
      buildFrame := Replace(buildFrame, [0x7D], [0x7D, 0x5D]);
      buildFrame := Replace(buildFrame, [0x7E], [0x7D, 0x5E]);
      buildFrame := Replace(buildFrame, [0x11], [0x7D, 0x31]);
      buildFrame := Replace(buildFrame, [0x13], [0x7D, 0x33]);
      assert buildFrame == Stuff(unstuffed);
      StuffIsEscape(unstuffed);
      buildFrame := [0x7E] + buildFrame + [0x7E];
      assert buildFrame == Encode(RequestBody(txCommand, txParam));
      uart.Write(buildFrame);
    }

    /** Reads one reply and decodes it; `NoReply` stands for `[None, None]`. */
    method Read() returns (reply: Reply)
      requires Decodable(NextAt(uart.inbox, 0))
      modifies uart
      ensures reply == Decode(NextAt(old(uart.inbox), 0))
      ensures uart.inbox == Drop(old(uart.inbox), 1)
      ensures uart.trace == old(uart.trace) + [ReadCall(NextAt(old(uart.inbox), 0))]
    {
      var received := uart.Read();
      if received.None? {
        return NoReply;
      }
      var inputBytes := Trim(received.value);
      inputBytes := Replace(inputBytes, [0x7D, 0x5E], [0x7E]);
      inputBytes := Replace(inputBytes, [0x7D, 0x31], [0x11]);
      inputBytes := Replace(inputBytes, [0x7D, 0x33], [0x13]);
      inputBytes := Replace(inputBytes, [0x7D, 0x5D], [0x7D]);
      var allegedChecksum := inputBytes[|inputBytes| - 1];
      var sumOfAllBytes := 0;
      for i := 0 to |inputBytes| - 1
        invariant sumOfAllBytes == Sum(inputBytes[..i])
      {
        assert inputBytes[..i + 1][..i] == inputBytes[..i];
        sumOfAllBytes := sumOfAllBytes + inputBytes[i] as int;
      }
      var calculatedChecksum := Invert(LowByte(sumOfAllBytes));
      if allegedChecksum != calculatedChecksum {
        return NoReply;
      }
      var stateByte := inputBytes[2];
      var lengthByte := inputBytes[3];
      var rxData := if lengthByte != 0 then Data(DataBytes(inputBytes)) else ZeroLength;
      reply := Reply(rxData, stateByte);
    }

    /** Start measurement (command 0x00, parameters 01 03); returns the state byte. */
    method Start() returns (state: Option<Byte>)
      requires Decodable(NextAt(uart.inbox, 1))
      modifies uart
      ensures uart.trace == old(uart.trace) + Exchange(old(uart.inbox), Frame(0x00, [0x01, 0x03]))
      ensures uart.inbox == Drop(old(uart.inbox), 2)
      ensures state == Decode(NextAt(old(uart.inbox), 1)).State()
    {
      var _ := uart.Read();
      Send(0x00, [0x01, 0x03]);
      var returnData := Read();
      state := returnData.State();
    }

    /** Stop measurement (command 0x01, no parameters). */
    method Stop() returns (state: Option<Byte>)
      requires Decodable(NextAt(uart.inbox, 1))
      modifies uart
      ensures uart.trace == old(uart.trace) + Exchange(old(uart.inbox), Frame(0x01, []))
      ensures uart.inbox == Drop(old(uart.inbox), 2)
      ensures state == Decode(NextAt(old(uart.inbox), 1)).State()
    {
      var _ := uart.Read();
      Send(0x01, []);
      var returnData := Read();
      state := returnData.State();
    }

    /** Read measured values (command 0x03): ten words, or ten zeros when the payload is absent, 0, or shorter than 40 bytes. */
    method ReadValues() returns (values: seq<nat>, state: Option<Byte>)
      requires Decodable(NextAt(uart.inbox, 1))
      modifies uart
      ensures uart.trace == old(uart.trace) + Exchange(old(uart.inbox), Frame(0x03, []))
      ensures uart.inbox == Drop(old(uart.inbox), 2)
      ensures values == Measurements(Decode(NextAt(old(uart.inbox), 1)).Payload())
      ensures state == Decode(NextAt(old(uart.inbox), 1)).State()
    {
      var _ := uart.Read();
      Send(0x03, []);
      var returnData := Read();
      values := Measurements(returnData.Payload());
      state := returnData.State();
    }

    /** Sleep (command 0x10). */
    method Sleep() returns (state: Option<Byte>)
      requires Decodable(NextAt(uart.inbox, 1))
      modifies uart
      ensures uart.trace == old(uart.trace) + Exchange(old(uart.inbox), Frame(0x10, []))
      ensures uart.inbox == Drop(old(uart.inbox), 2)
      ensures state == Decode(NextAt(old(uart.inbox), 1)).State()
    {
      var _ := uart.Read();
      Send(0x10, []);
      var returnData := Read();
      state := returnData.State();
    }

    /**
      Wake-up (command 0x11), sent twice with a flushing read in between; only
      the reply read after the second frame is decoded.
     */
    method Wake() returns (state: Option<Byte>)
      requires Decodable(NextAt(uart.inbox, 2))
      modifies uart
      ensures uart.trace == old(uart.trace) + [
        ReadCall(NextAt(old(uart.inbox), 0)), WriteCall(Frame(0x11, [])),
        ReadCall(NextAt(old(uart.inbox), 1)), WriteCall(Frame(0x11, [])),
        ReadCall(NextAt(old(uart.inbox), 2))]
      ensures uart.inbox == Drop(old(uart.inbox), 3)
      ensures state == Decode(NextAt(old(uart.inbox), 2)).State()
    {
      var _ := uart.Read();
      Send(0x11, []);
      var _ := uart.Read();
      Send(0x11, []);
      var returnData := Read();
      state := returnData.State();
    }

    /** Start fan cleaning (command 0x56). */
    method TriggerFanClean() returns (state: Option<Byte>)
      requires Decodable(NextAt(uart.inbox, 1))
      modifies uart
      ensures uart.trace == old(uart.trace) + Exchange(old(uart.inbox), Frame(0x56, []))
      ensures uart.inbox == Drop(old(uart.inbox), 2)
      ensures state == Decode(NextAt(old(uart.inbox), 1)).State()
    {
      var _ := uart.Read();
      Send(0x56, []);
      var returnData := Read();
      state := returnData.State();
    }

    /**
      Device information (command 0xD0): parameter 00 for "productType", 03 for
      "serialNumber"; any other request writes nothing but still reads.
     */
    method DeviceInfo(requestedInfo: string) returns (text: Bytes, state: Option<Byte>)
      requires DataReply(NextAt(uart.inbox, 1))
      modifies uart
      ensures uart.trace == old(uart.trace) + [ReadCall(NextAt(old(uart.inbox), 0))]
        + (if InfoParam(requestedInfo).Some? then [WriteCall(Frame(0xD0, InfoParam(requestedInfo).value))] else [])
        + [ReadCall(NextAt(old(uart.inbox), 1))]
      ensures uart.inbox == Drop(old(uart.inbox), 2)
      ensures text == DeviceInfoText(Decode(NextAt(old(uart.inbox), 1)).Payload())
      ensures state == Decode(NextAt(old(uart.inbox), 1)).State()
    {
      var _ := uart.Read();
      if requestedInfo == "productType" {
        Send(0xD0, [0x00]);
      } else if requestedInfo == "serialNumber" {
        Send(0xD0, [0x03]);
      }
      var returnData := Read();
      text := DeviceInfoText(returnData.Payload());
      state := returnData.State();
    }

    /** Read version (command 0xD1): firmware, hardware and protocol versions. */
    method ReadVersion() returns (versions: Versions, state: Option<Byte>)
      requires Decodable(NextAt(uart.inbox, 1))
      requires VersionPayload(Decode(NextAt(uart.inbox, 1)).Payload())
      modifies uart
      ensures uart.trace == old(uart.trace) + Exchange(old(uart.inbox), Frame(0xD1, []))
      ensures uart.inbox == Drop(old(uart.inbox), 2)
      ensures versions == VersionStrings(Decode(NextAt(old(uart.inbox), 1)).Payload())
      ensures state == Decode(NextAt(old(uart.inbox), 1)).State()
    {
      var _ := uart.Read();
      Send(0xD1, []);
      var returnData := Read();
      versions := VersionStrings(returnData.Payload());
      state := returnData.State();
    }

    /** Read device status register (command 0xD2): parameter 01 clears it after reading, 00 leaves it. */
    method ReadRegister(toClear: bool) returns (register: seq<int>, state: Option<Byte>)
      requires DataReply(NextAt(uart.inbox, 1))
      requires |Decode(NextAt(uart.inbox, 1)).data.bytes| >= 4
      modifies uart
      ensures uart.trace == old(uart.trace) + Exchange(old(uart.inbox), Frame(0xD2, [if toClear then 0x01 else 0x00]))
      ensures uart.inbox == Drop(old(uart.inbox), 2)
      ensures register == RegisterBytes(Decode(NextAt(old(uart.inbox), 1)).Payload())
      ensures state == Decode(NextAt(old(uart.inbox), 1)).State()
    {
      var _ := uart.Read();
      if toClear {
        Send(0xD2, [0x01]);
      } else {
        Send(0xD2, [0x00]);
      }
      var returnData := Read();
      register := RegisterBytes(returnData.Payload());
      state := returnData.State();
    }

    /** Device reset (command 0xD3). */
    method Reset() returns (state: Option<Byte>)
      requires Decodable(NextAt(uart.inbox, 1))
      modifies uart
      ensures uart.trace == old(uart.trace) + Exchange(old(uart.inbox), Frame(0xD3, []))
      ensures uart.inbox == Drop(old(uart.inbox), 2)
      ensures state == Decode(NextAt(old(uart.inbox), 1)).State()
    {
      var _ := uart.Read();
      Send(0xD3, []);
      var returnData := Read();
      state := returnData.State();
    }
  }

  // ---------------------------------------------------------------------------
  // The command table on the wire

  /** A request whose bytes and checksum are none of them reserved goes out unescaped. */
  lemma PlainFrame(command: Byte, params: Bytes)
    requires |params| <= 255
    requires !Reserved(command) && !Reserved(|params| as Byte)
    requires forall i :: 0 <= i < |params| ==> !Reserved(params[i])
    requires !Reserved(Checksum(RequestBody(command, params)))
    ensures Frame(command, params)
         == [Flag, Address, command, |params| as Byte] + params + [Checksum(RequestBody(command, params)), Flag]
  {
    var body := RequestBody(command, params);
    var full := body + [Checksum(body)];
    assert forall i :: 0 <= i < |full| ==> !Reserved(full[i]) by {
      forall i | 0 <= i < |full|
        ensures !Reserved(full[i])
      {
        if 3 <= i < |full| - 1 {
          assert full[i] == params[i - 3];
        }
      }
    }
    EscapeOfPlain(full);
  }

  /** The checksum of a request without parameters. */
  lemma BareChecksum(command: Byte)
    ensures Checksum(RequestBody(command, [])) == Invert(LowByte(command as int))
  {
    var n := Sum(RequestBody(command, []));
    BodySum(command, []);
    assert n == command as int;
  }

  /** The checksum of a request with one parameter byte. */
  lemma OneParamChecksum(command: Byte, p: Byte)
    ensures Checksum(RequestBody(command, [p])) == Invert(LowByte(command as int + 1 + p as int))
  {
    var n := Sum(RequestBody(command, [p]));
    BodySum(command, [p]);
    assert Sum([p]) == p as int by { assert [p][..0] == []; }
    assert n == command as int + 1 + p as int;
  }

  /** The start request: command 0x00 with parameters 0x01 0x03. */
  lemma StartFrame()
    ensures Frame(0x00, [0x01, 0x03]) == [0x7E, 0x00, 0x00, 0x02, 0x01, 0x03, 0xF9, 0x7E]
  {
    StartChecksum();
    PlainFrame(0x00, [0x01, 0x03]);
  }

  /** A request without parameters. */
  lemma BareFrame(command: Byte, cs: Byte)
    requires cs == Invert(LowByte(command as int))
    requires !Reserved(command) && !Reserved(cs)
    ensures Frame(command, []) == [Flag, Address, command, 0x00, cs, Flag]
  {
    BareChecksum(command);
    PlainFrame(command, []);
  }

  /** A request with one parameter byte `p` and checksum `cs`. */
  lemma OneParamFrame(command: Byte, p: Byte, cs: Byte)
    requires cs == Invert(LowByte(command as int + 1 + p as int))
    requires !Reserved(command) && !Reserved(p) && !Reserved(cs)
    ensures Frame(command, [p]) == [Flag, Address, command, 0x01, p, cs, Flag]
  {
    OneParamChecksum(command, p);
    PlainFrame(command, [p]);
  }

  /** The stop request. */
  lemma StopFrame()
    ensures Frame(0x01, []) == [0x7E, 0x00, 0x01, 0x00, 0xFE, 0x7E]
  {
    BareFrame(0x01, 0xFE);
  }

  /** The read_values request. */
  lemma ReadValuesFrame()
    ensures Frame(0x03, []) == [0x7E, 0x00, 0x03, 0x00, 0xFC, 0x7E]
  {
    BareFrame(0x03, 0xFC);
  }

  /** The sleep request. */
  lemma SleepFrame()
    ensures Frame(0x10, []) == [0x7E, 0x00, 0x10, 0x00, 0xEF, 0x7E]
  {
    BareFrame(0x10, 0xEF);
  }

  /** The trigger_fan_clean request. */
  lemma FanCleanFrame()
    ensures Frame(0x56, []) == [0x7E, 0x00, 0x56, 0x00, 0xA9, 0x7E]
  {
    BareFrame(0x56, 0xA9);
  }

  /** The read_version request. */
  lemma ReadVersionFrame()
    ensures Frame(0xD1, []) == [0x7E, 0x00, 0xD1, 0x00, 0x2E, 0x7E]
  {
    BareFrame(0xD1, 0x2E);
  }

  /** The reset request. */
  lemma ResetFrame()
    ensures Frame(0xD3, []) == [0x7E, 0x00, 0xD3, 0x00, 0x2C, 0x7E]
  {
    BareFrame(0xD3, 0x2C);
  }

  /** The request for the product type. */
  lemma ProductTypeFrame()
    ensures Frame(0xD0, [0x00]) == [0x7E, 0x00, 0xD0, 0x01, 0x00, 0x2E, 0x7E]
  {
    OneParamFrame(0xD0, 0x00, 0x2E);
  }

  /** The request for the serial number. */
  lemma SerialNumberFrame()
    ensures Frame(0xD0, [0x03]) == [0x7E, 0x00, 0xD0, 0x01, 0x03, 0x2B, 0x7E]
  {
    OneParamFrame(0xD0, 0x03, 0x2B);
  }

  /** The request for the status register without clearing it. */
  lemma KeepRegisterFrame()
    ensures Frame(0xD2, [0x00]) == [0x7E, 0x00, 0xD2, 0x01, 0x00, 0x2C, 0x7E]
  {
    OneParamFrame(0xD2, 0x00, 0x2C);
  }

  /** The request for the status register, clearing it. */
  lemma ClearRegisterFrame()
    ensures Frame(0xD2, [0x01]) == [0x7E, 0x00, 0xD2, 0x01, 0x01, 0x2B, 0x7E]
  {
    OneParamFrame(0xD2, 0x01, 0x2B);
  }

  /** The wake command byte 0x11 is itself reserved, so it goes out as 0x7D 0x31. */
  lemma WakeFrame()
    ensures Frame(0x11, []) == [0x7E, 0x00, 0x7D, 0x31, 0x00, 0xEE, 0x7E]
  {
    var body: Bytes := [0x00, 0x11, 0x00, 0xEE];
    BodySum(0x11, []);
    assert RequestBody(0x11, []) + [Checksum(RequestBody(0x11, []))] == body;
    assert Escape(body) == [0x00] + [0x7D, 0x31] + [0x00] + [0xEE] by {
      EscapeOfPlain(body[2..]);
      assert body[1..][1..] == body[2..];
    }
  }

  /**
    Read back by `read`, the start request decodes with its length byte 0x02
    as the state and its second parameter as data.
   */
  lemma StartFrameReadBack()
    ensures Decodable(Some(Frame(0x00, [0x01, 0x03])))
    ensures Decode(Some(Frame(0x00, [0x01, 0x03]))) == Reply(Data([0x03]), 0x02)
  {
    assert RequestBody(0x00, [0x01, 0x03]) == [Address, 0x00, 0x02, 0x01] + [0x03];
    DecodeEncode(Address, 0x00, 0x02, 0x01, [0x03]);
  }

  /**
    A frame without escape bytes whose last byte is not the checksum of the
    bytes before it is rejected, whatever their length.
   */
  lemma WrongChecksumRejected(body: Bytes, v: Byte)
    requires forall i :: 0 <= i < |body| ==> body[i] != Esc
    requires v != Esc && v != Checksum(body)
    ensures Decodable(Some([Flag] + body + [v] + [Flag]))
    ensures Decode(Some([Flag] + body + [v] + [Flag])) == NoReply
  {
    var t := body + [v];
    assert Trim([Flag] + body + [v] + [Flag]) == t;
    assert forall i :: 0 <= i < |t| ==> t[i] != Esc;
    ReplaceAbsent(t, [Esc, 0x5E], [Flag]);
    ReplaceAbsent(t, [Esc, 0x31], [Xon]);
    ReplaceAbsent(t, [Esc, 0x33], [Xoff]);
    ReplaceAbsent(t, [Esc, 0x5D], [Esc]);
    assert t[..|t| - 1] == body;
  }

  /** The start request with its checksum byte 0xF9 changed to 0x06 is rejected. */
  lemma CorruptStartFrameRejected()
    ensures Decodable(Some([0x7E, 0x00, 0x00, 0x02, 0x01, 0x03, 0x06, 0x7E]))
    ensures Decode(Some([0x7E, 0x00, 0x00, 0x02, 0x01, 0x03, 0x06, 0x7E])) == NoReply
  {
    var body := RequestBody(0x00, [0x01, 0x03]);
    assert body == [0x00, 0x00, 0x02, 0x01, 0x03];
    StartChecksum();
    WrongChecksumRejected(body, 0x06);
    assert [Flag] + body + [0x06] + [Flag] == [0x7E, 0x00, 0x00, 0x02, 0x01, 0x03, 0x06, 0x7E];
  }

  lemma StartChecksum()
    ensures Checksum(RequestBody(0x00, [0x01, 0x03])) == 0xF9
  {
    BodySum(0x00, [0x01, 0x03]);
    assert Sum([0x01, 0x03]) == 4 by { assert [0x01, 0x03][..1] == [0x01]; }
  }

  /** A measurement reply carrying ten words yields those words and its state. */
  lemma MeasurementReplyEndToEnd(state: Byte, ws: seq<nat>)
    requires |ws| == 10 && forall i :: 0 <= i < 10 ==> ws[i] < 0x1_0000_0000
    ensures var raw := Some(Encode([Address, 0x03, state, 40] + PackWords(ws)));
      && Decodable(raw)
      && Measurements(Decode(raw).Payload()) == ws
      && Decode(raw).State() == Some(state)
  {
    DecodeEncode(Address, 0x03, state, 40, PackWords(ws));
    MeasurementsOfPacked(ws);
  }

  /** A null-terminated identifier in a reply comes back as the identifier. */
  lemma DeviceInfoEndToEnd(state: Byte, text: Bytes)
    requires |text| < 255
    ensures var raw := Some(Encode([Address, 0xD0, state, (|text| + 1) as Byte] + text + [0x00]));
      && DataReply(raw)
      && DeviceInfoText(Decode(raw).Payload()) == text
      && Decode(raw).State() == Some(state)
  {
    assert [Address, 0xD0, state, (|text| + 1) as Byte] + text + [0x00]
        == [Address, 0xD0, state, (|text| + 1) as Byte] + (text + [0x00]);
    DecodeEncode(Address, 0xD0, state, (|text| + 1) as Byte, text + [0x00]);
    DeviceInfoOfTerminated(text);
  }
}
