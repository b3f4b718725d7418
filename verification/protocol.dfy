/**
 * The sensor's HID report protocol: 32-byte command frames sent with
 * SET_REPORT, data read back with GET_REPORT, and the two fixed handshakes
 * that read the temperature and the auxiliary block.
 */
module Protocol {
  import opened Usb
  import opened Conversion
  import opened Session

  /** Size of every command report. */
  const REPORT_SIZE: int := 32
  /** Size of the buffer a temperature read offers the device. */
  const DATA_SIZE: int := 256

  /** An `int` stored into an `unsigned char`: reduced modulo 256. */
  function ToByte(x: int): (b: byte)
    ensures (b as int - x) % 256 == 0
  {
    (x % 256) as byte
  }

  /** The report for command bytes a..h: each truncated to a byte, then 24 zero bytes of padding. */
  function Frame(a: int, b: int, c: int, d: int, e: int, f: int, g: int, h: int): (fr: seq<byte>)
    ensures |fr| == REPORT_SIZE
    ensures fr[..8] == [ToByte(a), ToByte(b), ToByte(c), ToByte(d), ToByte(e), ToByte(f), ToByte(g), ToByte(h)]
    ensures forall i :: 8 <= i < REPORT_SIZE ==> fr[i] == 0
  {
    [ToByte(a), ToByte(b), ToByte(c), ToByte(d), ToByte(e), ToByte(f), ToByte(g), ToByte(h)] + seq(24, _ => 0)
  }

  /** Puts the device in "read mode". */
  const READ_MODE: seq<byte> := Frame(10, 11, 12, 13, 0, 0, 2, 0)
  /** Returns the device to "result mode". */
  const RESULT_MODE: seq<byte> := Frame(10, 11, 12, 13, 0, 0, 1, 0)
  /** Asks for a temperature. */
  const QUERY_TEMPERATURE: seq<byte> := Frame(0x54, 0, 0, 0, 0, 0, 0, 0)
  /** Asks for the auxiliary block. */
  const QUERY_OTHER: seq<byte> := Frame(0x52, 0, 0, 0, 0, 0, 0, 0)
  /** The all-zero frame sent between a temperature query and result mode. */
  const IDLE: seq<byte> := Frame(0, 0, 0, 0, 0, 0, 0, 0)

  /** The outbound class-specific SET_REPORT transfer that carries `frame` to the sensor. */
  function CommandCall(t: Temper, frame: seq<byte>): Call {
    ControlOut(t.handle, 0x21, 9, 0x200, 0x01, frame, t.timeout)
  }

  /** The inbound class-specific GET_REPORT transfer of at most `len` bytes. */
  function DataCall(t: Temper, len: int): Call {
    ControlIn(t.handle, 0xa1, 1, 0x300, 0x01, len, t.timeout)
  }

  /** The transfers that send `frames` in order. */
  function Commands(t: Temper, frames: seq<seq<byte>>): (calls: seq<Call>)
    ensures |calls| == |frames|
    ensures forall i :: 0 <= i < |frames| ==> calls[i] == CommandCall(t, frames[i])
  {
    seq(|frames|, i requires 0 <= i < |frames| => CommandCall(t, frames[i]))
  }

  /** The frames of a temperature read: read mode, the query, seven idle frames, result mode. */
  function TemperatureFrames(): seq<seq<byte>> {
    [READ_MODE, QUERY_TEMPERATURE] + seq(7, _ => IDLE) + [RESULT_MODE]
  }

  /** The frames of an auxiliary read: read mode, the query, result mode. */
  function OtherFrames(): seq<seq<byte>> {
    [READ_MODE, QUERY_OTHER, RESULT_MODE]
  }

  /** Every libusb call one temperature read makes: ten frames, then one request for 256 bytes. */
  function TemperatureCalls(t: Temper): seq<Call> {
    Commands(t, TemperatureFrames()) + [DataCall(t, DATA_SIZE)]
  }

  /**
   * What a temperature read makes of the device's reply to its data request:
   * a Celsius value from the first two bytes, or None when fewer than two
   * bytes came back.
   */
  function DecodeReply(r: InReply): (c: Option<real>)
    ensures c.None? <==> r.Failed? || |r.bytes| < 2
    ensures c.Some? ==> |r.bytes| >= 2 && c.value == (Raw(r.bytes[0], r.bytes[1]) + DEVICE_OFFSET) as real / 256.0
  {
    if InStatus(r, DATA_SIZE) < 2 then None
    else Some(Celsius(r.bytes[0], r.bytes[1]))
  }

  /** The temperature handshake is the fixed sequence of ten frames, in order. */
  lemma TemperatureFramesOrder()
    ensures var fs := TemperatureFrames();
            |fs| == 10 && fs[0] == READ_MODE && fs[1] == QUERY_TEMPERATURE &&
            (forall i :: 2 <= i < 9 ==> fs[i] == IDLE) && fs[9] == RESULT_MODE
  {
  }

  /** The mode frames differ only in byte 6, and the two queries only in their opcode. */
  lemma FrameContents()
    ensures READ_MODE[..8] == [10, 11, 12, 13, 0, 0, 2, 0] && RESULT_MODE[..8] == [10, 11, 12, 13, 0, 0, 1, 0]
    ensures QUERY_TEMPERATURE[0] == 0x54 && QUERY_OTHER[0] == 0x52
    ensures forall i :: 0 <= i < REPORT_SIZE && i != 6 ==> READ_MODE[i] == RESULT_MODE[i]
    ensures forall i :: 1 <= i < REPORT_SIZE ==> QUERY_TEMPERATURE[i] == QUERY_OTHER[i] == IDLE[i] == 0
  {
  }

  /** The report depends only on the arguments' low 8 bits: arguments equal modulo 256 give the same report. */
  lemma FrameTruncates(a: int, b: int, c: int, d: int, e: int, f: int, g: int, h: int,
                       a': int, b': int, c': int, d': int, e': int, f': int, g': int, h': int)
    requires a % 256 == a' % 256 && b % 256 == b' % 256 && c % 256 == c' % 256 && d % 256 == d' % 256
    requires e % 256 == e' % 256 && f % 256 == f' % 256 && g % 256 == g' % 256 && h % 256 == h' % 256
    ensures Frame(a, b, c, d, e, f, g, h) == Frame(a', b', c', d', e', f', g', h')
  {
  }

  /** A negative argument is stored as its two's-complement byte: -1 becomes 255. */
  lemma FrameNegativeByte()
    ensures Frame(-1, 0, 0, 0, 0, 0, 0, 0)[0] == 255
  {
  }

  /**
   * TemperSendCommand: fills a zeroed 32-byte report with a..h and sends it.
   * Returns 0 exactly when the transfer reports all 32 bytes written, -1 otherwise.
   */
  method SendCommand(usb: Libusb, t: Temper, a: int, b: int, c: int, d: int, e: int, f: int, g: int, h: int)
    returns (ret: int)
    modifies usb
    ensures usb.log == old(usb.log) + [CommandCall(t, Frame(a, b, c, d, e, f, g, h))]
    ensures ret == 0 <==> usb.status(usb.log) == REPORT_SIZE
    ensures ret != 0 ==> ret == -1
  {
    var buf := new byte[REPORT_SIZE](_ => 0);
    buf[0] := ToByte(a);
    buf[1] := ToByte(b);
    buf[2] := ToByte(c);
    buf[3] := ToByte(d);
    buf[4] := ToByte(e);
    buf[5] := ToByte(f);
    buf[6] := ToByte(g);
    buf[7] := ToByte(h);
    FrameFromParts(buf[..], a, b, c, d, e, f, g, h);
    var sent := usb.Issue(CommandCall(t, buf[..]));
    if sent != REPORT_SIZE {
      return -1;
    }
    return 0;
  }

  /** A report with a..h in front and zeros behind is Frame(a, ..., h). */
  lemma FrameFromParts(s: seq<byte>, a: int, b: int, c: int, d: int, e: int, f: int, g: int, h: int)
    requires |s| == REPORT_SIZE
    requires s[0] == ToByte(a) && s[1] == ToByte(b) && s[2] == ToByte(c) && s[3] == ToByte(d)
    requires s[4] == ToByte(e) && s[5] == ToByte(f) && s[6] == ToByte(g) && s[7] == ToByte(h)
    requires forall i :: 8 <= i < REPORT_SIZE ==> s[i] == 0
    ensures s == Frame(a, b, c, d, e, f, g, h)
  {
    var fr := Frame(a, b, c, d, e, f, g, h);
    assert forall i :: 0 <= i < 8 ==> fr[i] == fr[..8][i];
  }

  /** TemperGetData: asks for up to `len` bytes into `buf` and returns what libusb returns. */
  method GetData(usb: Libusb, t: Temper, buf: array<byte>, len: int) returns (ret: int)
    requires 0 <= len <= buf.Length
    modifies usb, buf
    ensures usb.log == old(usb.log) + [DataCall(t, len)]
    ensures ret == InStatus(usb.input(usb.log), len)
    ensures var got := Copied(usb.input(usb.log), len);
            buf[..|got|] == got && buf[|got|..] == old(buf[|got|..])
  {
    ret := usb.Receive(DataCall(t, len), buf);
  }

  /**
   * TemperGetTemperatureInC: runs the ten-frame handshake, whatever each send
   * returns, then requests 256 bytes. With at least two bytes back it returns
   * 0 and the decoded Celsius value; otherwise -1 and `tempC` as it was.
   */
  method GetTemperatureInC(usb: Libusb, t: Temper, tempC: real) returns (ret: int, tempC': real)
    modifies usb
    ensures usb.log == old(usb.log) + TemperatureCalls(t)
    ensures DecodeReply(usb.input(usb.log)).None? ==> ret == -1 && tempC' == tempC
    ensures DecodeReply(usb.input(usb.log)).Some? ==> ret == 0 && tempC' == DecodeReply(usb.input(usb.log)).value
  {
    var buf := new byte[DATA_SIZE];
    ghost var sent: seq<seq<byte>> := [READ_MODE, QUERY_TEMPERATURE];
    var r := SendCommand(usb, t, 10, 11, 12, 13, 0, 0, 2, 0);
    r := SendCommand(usb, t, 0x54, 0, 0, 0, 0, 0, 0, 0);
    assert usb.log == old(usb.log) + Commands(t, sent);
    for i := 0 to 7
      invariant sent == [READ_MODE, QUERY_TEMPERATURE] + seq(i, _ => IDLE)
      invariant usb.log == old(usb.log) + Commands(t, sent)
    {
      r := SendCommand(usb, t, 0, 0, 0, 0, 0, 0, 0, 0);
      sent := sent + [IDLE];
    }
    r := SendCommand(usb, t, 10, 11, 12, 13, 0, 0, 1, 0);
    sent := sent + [RESULT_MODE];
    assert sent == TemperatureFrames();
    var got := GetData(usb, t, buf, DATA_SIZE);
    if got < 2 {
      return -1, tempC;
    }
    var temperature := Raw(buf[0], buf[1]);
    temperature := temperature + DEVICE_OFFSET;
    return 0, temperature as real * (125.0 / 32000.0);
  }

  /**
   * TemperGetOtherStuff: read mode, query 0x52, result mode, then a request
   * for `length` bytes into `buf`; returns the request's result unchanged.
   */
  method GetOtherStuff(usb: Libusb, t: Temper, buf: array<byte>, length: int) returns (ret: int)
    requires 0 <= length <= buf.Length
    modifies usb, buf
    ensures usb.log == old(usb.log) + Commands(t, OtherFrames()) + [DataCall(t, length)]
    ensures ret == InStatus(usb.input(usb.log), length)
    ensures var got := Copied(usb.input(usb.log), length);
            buf[..|got|] == got && buf[|got|..] == old(buf[|got|..])
  {
    var r := SendCommand(usb, t, 10, 11, 12, 13, 0, 0, 2, 0);
    r := SendCommand(usb, t, 0x52, 0, 0, 0, 0, 0, 0, 0);
    r := SendCommand(usb, t, 10, 11, 12, 13, 0, 0, 1, 0);
    assert usb.log == old(usb.log) + Commands(t, OtherFrames());
    ret := GetData(usb, t, buf, length);
  }
}
