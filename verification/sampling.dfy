/**
 * The sampling loop of `main` and the connected gate of `mqttPublish`.
 */
module Sampling {
  import opened Usb
  import opened Conversion
  import opened Session
  import opened Protocol

  /** One published reading. The timestamp and the JSON text are not modelled. */
  datatype Message = Message(topic: string, deviceNum: int, location: string, temperature: real)

  /** The publish side as `mqttPublish` sees it: a connected flag and what went out. */
  class Broker {
    const topic: string
    const deviceNum: int
    const location: string
    var connected: bool
    /** Every message handed to the broker client, oldest first. */
    var published: seq<Message>
    /** How many readings were dropped (logged) because the broker was not connected. */
    var dropped: nat

    constructor (topic: string, deviceNum: int, location: string, connected: bool)
      ensures this.topic == topic && this.deviceNum == deviceNum && this.location == location
      ensures this.connected == connected && published == [] && dropped == 0
    {
      this.topic := topic;
      this.deviceNum := deviceNum;
      this.location := location;
      this.connected := connected;
      published := [];
      dropped := 0;
    }

    /** The message `mqttPublish` builds for `deviceTemp`. */
    function MessageFor(deviceTemp: real): Message {
      Message(topic, deviceNum, location, deviceTemp)
    }

    /** mqttPublish: sends one message when connected; otherwise drops the reading and publishes nothing. */
    method Publish(deviceTemp: real)
      modifies this
      ensures connected == old(connected)
      ensures old(connected) ==> published == old(published) + [MessageFor(deviceTemp)] && dropped == old(dropped)
      ensures !old(connected) ==> published == old(published) && dropped == old(dropped) + 1
    {
      if !connected {
        dropped := dropped + 1;
        return;
      }
      published := published + [MessageFor(deviceTemp)];
    }
  }

  /** The calls `k` temperature reads make, one after another. */
  function Repeat(calls: seq<Call>, k: nat): (r: seq<Call>)
    ensures |r| == k * |calls|
  {
    if k == 0 then [] else Repeat(calls, k - 1) + calls
  }

  /** The Celsius value the read of tick `k` yields, for a loop started after history `hist`. */
  function TickReading(input: seq<Call> -> InReply, t: Temper, hist: seq<Call>, k: nat): Option<real> {
    DecodeReply(input(hist + Repeat(TemperatureCalls(t), k + 1)))
  }

  /**
   * The Fahrenheit values the first `n` ticks hand to the publish step,
   * each computed from that tick's reading; a tick whose read failed contributes nothing.
   */
  function Published(input: seq<Call> -> InReply, t: Temper, hist: seq<Call>, compensation: real, n: nat): (temps: seq<real>)
    ensures |temps| <= n
    ensures (forall k :: 0 <= k < n ==> TickReading(input, t, hist, k).Some?) ==> |temps| == n
  {
    if n == 0 then []
    else
      Published(input, t, hist, compensation, n - 1) +
      match TickReading(input, t, hist, n - 1)
      case Some(c) => [Fahrenheit(c, compensation)]
      case None => []
  }

  /** After `n` successful ticks, entry `k` of what was published is tick `k`'s reading in Fahrenheit. */
  lemma {:induction false} PublishedAt(input: seq<Call> -> InReply, t: Temper, hist: seq<Call>, compensation: real, n: nat, k: nat)
    requires forall j :: 0 <= j < n ==> TickReading(input, t, hist, j).Some?
    requires k < n
    ensures |Published(input, t, hist, compensation, n)| == n
    ensures Published(input, t, hist, compensation, n)[k] == Fahrenheit(TickReading(input, t, hist, k).value, compensation)
    decreases n
  {
    if k < n - 1 {
      PublishedAt(input, t, hist, compensation, n - 1, k);
    }
  }

  /** Tick `n` reads right after the first `n` ticks' calls, and a successful one adds its value to what is published. */
  lemma {:induction false} TickStep(input: seq<Call> -> InReply, t: Temper, hist: seq<Call>, compensation: real, n: nat)
    ensures hist + Repeat(TemperatureCalls(t), n) + TemperatureCalls(t) == hist + Repeat(TemperatureCalls(t), n + 1)
    ensures TickReading(input, t, hist, n) == DecodeReply(input(hist + Repeat(TemperatureCalls(t), n) + TemperatureCalls(t)))
    ensures TickReading(input, t, hist, n).Some? ==>
              Published(input, t, hist, compensation, n + 1) ==
              Published(input, t, hist, compensation, n) + [Fahrenheit(TickReading(input, t, hist, n).value, compensation)]
  {
    assert hist + Repeat(TemperatureCalls(t), n) + TemperatureCalls(t) == hist + (Repeat(TemperatureCalls(t), n) + TemperatureCalls(t));
  }

  /** One more published value adds one more message, at the end. */
  lemma MessagesSnoc(broker: Broker, temps: seq<real>, x: real)
    ensures Messages(broker, temps + [x]) == Messages(broker, temps) + [broker.MessageFor(x)]
  {
  }

  /** The messages a broker builds for `temps`, in order. */
  function Messages(broker: Broker, temps: seq<real>): (ms: seq<Message>)
    ensures |ms| == |temps|
    ensures forall k :: 0 <= k < |temps| ==> ms[k] == broker.MessageFor(temps[k])
  {
    seq(|temps|, k requires 0 <= k < |temps| => broker.MessageFor(temps[k]))
  }

  /**
   * One pass of the `main` loop: read the temperature; on failure stop
   * without publishing; on success convert to Fahrenheit, add the
   * compensation and hand the value to the publish step exactly once.
   */
  method SampleStep(usb: Libusb, t: Temper, broker: Broker, compensation: real, tempC: real)
    returns (ok: bool, tempC': real)
    modifies usb, broker
    ensures usb.log == old(usb.log) + TemperatureCalls(t)
    ensures var reading := DecodeReply(usb.input(usb.log));
            ok == reading.Some? && (ok ==> tempC' == reading.value) && (!ok ==> tempC' == tempC)
    ensures broker.connected == old(broker.connected)
    ensures !ok ==> broker.published == old(broker.published) && broker.dropped == old(broker.dropped)
    ensures ok && old(broker.connected) ==>
              broker.published == old(broker.published) + [broker.MessageFor(Fahrenheit(tempC', compensation))] &&
              broker.dropped == old(broker.dropped)
    ensures ok && !old(broker.connected) ==>
              broker.published == old(broker.published) && broker.dropped == old(broker.dropped) + 1
  {
    var ret;
    ret, tempC' := GetTemperatureInC(usb, t, tempC);
    if ret < 0 {
      return false, tempC';
    }
    var tempF := 9.0 / 5.0 * tempC' + 32.0;
    tempF := tempF + compensation;
    broker.Publish(tempF);
    ok := true;
  }

  /**
   * The `main` loop, run until a read fails or `ticks` passes have been made
   * (the point where the termination signal arrives). Returns how many reads
   * succeeded and whether the loop stopped on a failed read.
   */
  method Run(usb: Libusb, t: Temper, broker: Broker, compensation: real, ticks: nat) returns (samples: nat, failed: bool)
    modifies usb, broker
    ensures samples <= ticks && (!failed ==> samples == ticks) && (failed ==> samples < ticks)
    ensures forall k :: 0 <= k < samples ==> TickReading(usb.input, t, old(usb.log), k).Some?
    ensures failed ==> TickReading(usb.input, t, old(usb.log), samples).None?
    ensures usb.log == old(usb.log) + Repeat(TemperatureCalls(t), if failed then samples + 1 else samples)
    ensures broker.connected == old(broker.connected)
    ensures broker.connected ==>
              broker.published == old(broker.published) + Messages(broker, Published(usb.input, t, old(usb.log), compensation, samples)) &&
              broker.dropped == old(broker.dropped)
    ensures !broker.connected ==> broker.published == old(broker.published) && broker.dropped == old(broker.dropped) + samples
  {
    ghost var hist := usb.log;
    var tempC := 0.0;
    samples, failed := 0, false;
    while samples < ticks && !failed
      invariant samples <= ticks && (failed ==> samples < ticks)
      invariant forall k :: 0 <= k < samples ==> TickReading(usb.input, t, hist, k).Some?
      invariant failed ==> TickReading(usb.input, t, hist, samples).None?
      invariant usb.log == hist + Repeat(TemperatureCalls(t), if failed then samples + 1 else samples)
      invariant broker.connected == old(broker.connected)
      invariant broker.connected ==>
                  broker.published == old(broker.published) + Messages(broker, Published(usb.input, t, hist, compensation, samples)) &&
                  broker.dropped == old(broker.dropped)
      invariant !broker.connected ==> broker.published == old(broker.published) && broker.dropped == old(broker.dropped) + samples
      decreases ticks - samples, if failed then 0 else 1
    {
      var ok;
      TickStep(usb.input, t, hist, compensation, samples);
      ok, tempC := SampleStep(usb, t, broker, compensation, tempC);
      if ok {
        MessagesSnoc(broker, Published(usb.input, t, hist, compensation, samples), Fahrenheit(tempC, compensation));
        samples := samples + 1;
      } else {
        failed := true;
      }
    }
  }

  /** What opening sensor 0 does: the calls TemperCreateFromDeviceNumber makes and the session it returns. */
  function OpenFirst(status: seq<Call> -> int, hist: seq<Call>, busses: seq<Bus>, debug: bool): (seq<Call>, Option<Temper>) {
    match Selected(busses, 0)
    case None => ([], None)
    case Some(dev) => CreateRun(status, hist, dev, USB_TIMEOUT, debug)
  }

  /**
   * `main` from the moment the broker is connected: mark it connected, open
   * sensor 0 (exit status -1 when that fails), make the auxiliary read whose
   * result is discarded, then run the loop until a read fails or `ticks`
   * passes are made; every way out of the loop exits with status 1.
   */
  method Service(usb: Libusb, busses: seq<Bus>, broker: Broker, compensation: real, debug: bool, ticks: nat)
    returns (exitStatus: int, samples: nat)
    modifies usb, broker
    ensures broker.connected && broker.dropped == old(broker.dropped)
    ensures var (opening, session) := OpenFirst(usb.status, old(usb.log), busses, debug);
            session.None? ==>
              exitStatus == -1 && samples == 0 &&
              usb.log == old(usb.log) + opening && broker.published == old(broker.published)
    ensures var (opening, session) := OpenFirst(usb.status, old(usb.log), busses, debug);
            session.Some? ==>
              var t := session.value;
              var hist := old(usb.log) + opening + Commands(t, OtherFrames()) + [DataCall(t, DATA_SIZE)];
              exitStatus == 1 && samples <= ticks &&
              (forall k :: 0 <= k < samples ==> TickReading(usb.input, t, hist, k).Some?) &&
              (samples < ticks ==> TickReading(usb.input, t, hist, samples).None?) &&
              usb.log == hist + Repeat(TemperatureCalls(t), if samples < ticks then samples + 1 else samples) &&
              broker.published == old(broker.published) + Messages(broker, Published(usb.input, t, hist, compensation, samples))
  {
    broker.connected := true;
    var session := TemperCreateFromDeviceNumber(usb, busses, 0, USB_TIMEOUT, debug);
    if session.None? {
      return -1, 0;
    }
    var t := session.value;
    var buf := new byte[DATA_SIZE](_ => 0);
    var ret := GetOtherStuff(usb, t, buf, DATA_SIZE);
    var failed;
    samples, failed := Run(usb, t, broker, compensation, ticks);
    exitStatus := 1;
  }
}
