/**
 * The slice of libusb-0.1 the sensor driver uses, as an abstract stack.
 *
 * Every call the driver makes is appended to `log`. What libusb answers is
 * not modelled as behaviour: it comes from two oracles fixed when the stack
 * is created, each applied to the whole history of calls ending with the one
 * being answered. Any deterministic device and kernel can be described this way.
 */
module Usb {

  /** An octet on the wire (the driver's `unsigned char`). */
  newtype byte = x: int | 0 <= x < 256

  /** A libusb error return: always negative. */
  type ErrorCode = x: int | x < 0 witness -1

  datatype Option<T> = None | Some(value: T)

  /** The part of a device descriptor the driver looks at. */
  datatype Descriptor = Descriptor(idVendor: int, idProduct: int)

  /** One USB bus with the descriptors of its devices, in the order libusb lists them. */
  datatype Bus = Bus(devices: seq<Descriptor>)

  /**
   * A device as the driver reaches it in libusb's lists: the index of its bus
   * and its position on that bus, which stand for the identity of libusb's
   * device record, and its descriptor. Two devices with equal descriptors on
   * different buses are different devices.
   */
  datatype Device = Device(bus: nat, slot: nat, descriptor: Descriptor)

  /** The libusb calls the driver makes. A handle is an opaque nonzero value; 0 is NULL. */
  datatype Call =
    | Open(device: Device)
    | DetachKernelDriver(handle: int, iface: int)
    | SetConfiguration(handle: int, configuration: int)
    | ClaimInterface(handle: int, iface: int)
    | Close(handle: int)
    | ControlOut(handle: int, requestType: int, request: int, value: int, index: int, data: seq<byte>, timeout: int)
    | ControlIn(handle: int, requestType: int, request: int, value: int, index: int, size: int, timeout: int)

  /** What an inbound control transfer hands back: an error, or the bytes the device offered. */
  datatype InReply = Failed(code: ErrorCode) | Offered(bytes: seq<byte>)

  /** The bytes an inbound transfer of at most `size` bytes copies into the caller's buffer. */
  function Copied(r: InReply, size: nat): (d: seq<byte>)
    ensures |d| <= size
    ensures r.Offered? ==> |d| <= |r.bytes| && d == r.bytes[..|d|] && (|d| == size || d == r.bytes)
    ensures r.Failed? ==> d == []
  {
    match r
    case Failed(_) => []
    case Offered(bytes) => if |bytes| <= size then bytes else bytes[..size]
  }

  /** The value `usb_control_msg` returns for an inbound transfer: the error code or the number of bytes copied. */
  function InStatus(r: InReply, size: nat): (ret: int)
    ensures ret < 0 <==> r.Failed?
    ensures ret >= 0 ==> ret == |Copied(r, size)|
  {
    match r
    case Failed(code) => code
    case Offered(_) => |Copied(r, size)|
  }

  class Libusb {
    /** The return value of every call except an inbound transfer, given the history ending with that call. */
    const status: seq<Call> -> int
    /** The reply to an inbound transfer, given the history ending with that transfer. */
    const input: seq<Call> -> InReply
    /** Every call made so far, oldest first. */
    var log: seq<Call>

    constructor (status: seq<Call> -> int, input: seq<Call> -> InReply)
      ensures this.status == status && this.input == input && log == []
    {
      this.status := status;
      this.input := input;
      log := [];
    }

    /** Makes a call other than an inbound transfer and returns what libusb answers. */
    method Issue(c: Call) returns (ret: int)
      requires !c.ControlIn?
      modifies this
      ensures log == old(log) + [c]
      ensures ret == status(log)
    {
      log := log + [c];
      ret := status(log);
    }

    /**
     * Makes an inbound control transfer into `buf`: the copied bytes land at
     * the front of `buf` and the rest of `buf` is left as it was.
     */
    method Receive(c: Call, buf: array<byte>) returns (ret: int)
      requires c.ControlIn? && 0 <= c.size <= buf.Length
      modifies this, buf
      ensures log == old(log) + [c]
      ensures ret == InStatus(input(log), c.size)
      ensures var d := Copied(input(log), c.size);
              buf[..|d|] == d && buf[|d|..] == old(buf[|d|..])
    {
      log := log + [c];
      var d := Copied(input(log), c.size);
      forall i | 0 <= i < |d| {
        buf[i] := d[i];
      }
      ret := InStatus(input(log), c.size);
    }
  }
}
