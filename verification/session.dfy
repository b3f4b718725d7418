/**
 * Finding, opening and releasing a TEMPer sensor: TemperCreateFromDeviceNumber,
 * TemperCreate and TemperFree.
 */
module Session {
  import opened Usb

  /** The identifiers that mark a TEMPer sensor. */
  const VENDOR_ID: int := 0x1130
  const PRODUCT_ID: int := 0x660c
  /** Control-transfer timeout in milliseconds. */
  const USB_TIMEOUT: int := 1000

  /** An open sensor session. Its fields are set once, when the session is created. */
  datatype Temper = Temper(device: Device, handle: int, debug: bool, timeout: int)

  predicate IsTemper(d: Device) {
    d.descriptor.idVendor == VENDOR_ID && d.descriptor.idProduct == PRODUCT_ID
  }

  /** The devices of bus number `i`, whose descriptors are `ds`, in list order. */
  function OnBus(i: nat, ds: seq<Descriptor>): seq<Device> {
    seq(|ds|, j requires 0 <= j < |ds| => Device(i, j, ds[j]))
  }

  /** Every device on every bus, in the order the driver walks them: bus by bus, then device by device. */
  function Enumerate(busses: seq<Bus>): seq<Device> {
    if busses == [] then [] else Enumerate(busses[..|busses| - 1]) + OnBus(|busses| - 1, busses[|busses| - 1].devices)
  }

  /** Every device the walk meets is listed on its bus at its slot, with its descriptor. */
  lemma {:induction false} EnumerateLocates(busses: seq<Bus>)
    ensures forall d :: d in Enumerate(busses) ==>
              d.bus < |busses| && d.slot < |busses[d.bus].devices| && busses[d.bus].devices[d.slot] == d.descriptor
    decreases |busses|
  {
    if busses != [] {
      var init := busses[..|busses| - 1];
      EnumerateLocates(init);
      forall d | d in Enumerate(busses)
        ensures d.bus < |busses| && d.slot < |busses[d.bus].devices| && busses[d.bus].devices[d.slot] == d.descriptor
      {
        if d in Enumerate(init) {
          assert init[d.bus] == busses[d.bus];
        }
      }
    }
  }

  /** Walking the first `k` buses walks a prefix of the whole walk. */
  lemma {:induction false} EnumeratePrefix(busses: seq<Bus>, k: nat)
    requires k <= |busses|
    ensures Enumerate(busses[..k]) <= Enumerate(busses)
    decreases |busses| - k
  {
    if k < |busses| {
      var init := busses[..|busses| - 1];
      assert init[..k] == busses[..k];
      EnumeratePrefix(init, k);
    } else {
      assert busses[..k] == busses;
    }
  }

  /** No device occurs twice in `ds`. */
  predicate Distinct(ds: seq<Device>) {
    forall p, q :: 0 <= p < q < |ds| ==> ds[p] != ds[q]
  }

  /** The walk never meets the same device twice. */
  lemma {:induction false} EnumerateDistinct(busses: seq<Bus>)
    ensures Distinct(Enumerate(busses))
    decreases |busses|
  {
    if busses != [] {
      var init := busses[..|busses| - 1];
      EnumerateDistinct(init);
      EnumerateLocates(init);
      var a := Enumerate(init);
      var ds := Enumerate(busses);
      forall p, q | 0 <= p < q < |ds|
        ensures ds[p] != ds[q]
      {
        if p < |a| && |a| <= q {
          assert ds[p] in a;
        }
      }
    }
  }

  /** Picking the sensors out of distinct devices gives distinct sensors. */
  lemma {:induction false} MatchingDistinct(ds: seq<Device>)
    requires Distinct(ds)
    ensures Distinct(Matching(ds))
    decreases |ds|
  {
    if ds != [] {
      var init := ds[..|ds| - 1];
      MatchingDistinct(init);
    }
  }

  /** The sensors among `ds`, in their order in `ds`. */
  function Matching(ds: seq<Device>): (m: seq<Device>)
    ensures |m| <= |ds|
    ensures forall d :: d in m ==> d in ds && IsTemper(d)
  {
    if ds == [] then []
    else Matching(ds[..|ds| - 1]) + (if IsTemper(ds[|ds| - 1]) then [ds[|ds| - 1]] else [])
  }

  /** The device TemperCreateFromDeviceNumber opens: the `deviceNum`-th sensor, counting from 0, if there is one. */
  function Selected(busses: seq<Bus>, deviceNum: int): Option<Device> {
    var m := Matching(Enumerate(busses));
    if 0 <= deviceNum < |m| then Some(m[deviceNum]) else None
  }

  lemma {:induction false} MatchingAppend(a: seq<Device>, b: seq<Device>)
    ensures Matching(a + b) == Matching(a) + Matching(b)
    decreases |b|
  {
    if b == [] {
      assert a + b == a;
    } else {
      var b' := b[..|b| - 1];
      assert (a + b)[..|a + b| - 1] == a + b';
      MatchingAppend(a, b');
    }
  }

  /** A device that is not a sensor never advances the count: removing it changes nothing. */
  lemma {:induction false} NonMatchingNeverCounts(before: seq<Device>, d: Device, after: seq<Device>)
    requires !IsTemper(d)
    ensures Matching(before + [d] + after) == Matching(before + after)
  {
    assert Matching([d]) == [] by { assert [d][..0] == []; }
    MatchingAppend(before, [d]);
    assert Matching(before + [d]) == Matching(before);
    MatchingAppend(before + [d], after);
    MatchingAppend(before, after);
  }

  /** A sensor at walk position `p` is the match whose index is the number of sensors walked before it. */
  lemma {:induction false} NthMatchAt(ds: seq<Device>, p: nat)
    requires p < |ds| && IsTemper(ds[p])
    ensures |Matching(ds[..p])| < |Matching(ds)|
    ensures Matching(ds)[|Matching(ds[..p])|] == ds[p]
  {
    assert ds == ds[..p] + [ds[p]] + ds[p + 1..];
    MatchingAppend(ds[..p] + [ds[p]], ds[p + 1..]);
    MatchingAppend(ds[..p], [ds[p]]);
    assert Matching([ds[p]]) == [ds[p]] by { assert [ds[p]][..0] == []; }
  }

  /** Conversely, the `k`-th match sits at a walk position with exactly `k` sensors before it. */
  lemma {:induction false} NthMatchPosition(ds: seq<Device>, k: nat)
    requires k < |Matching(ds)|
    ensures exists p :: 0 <= p < |ds| && ds[p] == Matching(ds)[k] && IsTemper(ds[p]) && |Matching(ds[..p])| == k
    decreases |ds|
  {
    var n := |ds| - 1;
    var init := ds[..n];
    var m := Matching(init);
    assert Matching(ds) == m + (if IsTemper(ds[n]) then [ds[n]] else []);
    if k < |m| {
      NthMatchPosition(init, k);
      var p :| 0 <= p < |init| && init[p] == m[k] && IsTemper(init[p]) && |Matching(init[..p])| == k;
      assert init[..p] == ds[..p];
      assert ds[p] == init[p];
    } else {
      assert ds[n] == Matching(ds)[k];
    }
  }

  /**
   * The device selected for `deviceNum` is exactly a sensor at some walk
   * position with `deviceNum` sensors walked before it.
   */
  lemma {:induction false} SelectedIsNthMatch(busses: seq<Bus>, deviceNum: int, d: Device)
    ensures Selected(busses, deviceNum) == Some(d) <==>
            exists p :: 0 <= p < |Enumerate(busses)| && Enumerate(busses)[p] == d && IsTemper(d)
                        && |Matching(Enumerate(busses)[..p])| == deviceNum
  {
    var ds := Enumerate(busses);
    if Selected(busses, deviceNum) == Some(d) {
      NthMatchPosition(ds, deviceNum);
    }
    if p :| 0 <= p < |ds| && ds[p] == d && IsTemper(d) && |Matching(ds[..p])| == deviceNum {
      NthMatchAt(ds, p);
      assert Matching(ds)[deviceNum] == d;
    }
  }

  /** Two different sensor numbers never select the same device. */
  lemma SelectedDistinct(busses: seq<Bus>, k: int, k': int)
    requires k != k' && Selected(busses, k).Some? && Selected(busses, k').Some?
    ensures Selected(busses, k).value != Selected(busses, k').value
  {
    EnumerateDistinct(busses);
    MatchingDistinct(Enumerate(busses));
  }

  /** The device selected for `deviceNum` is a sensor listed on its bus at its slot. */
  lemma SelectedLocates(busses: seq<Bus>, deviceNum: int)
    requires Selected(busses, deviceNum).Some?
    ensures var d := Selected(busses, deviceNum).value;
            IsTemper(d) && d.bus < |busses| && d.slot < |busses[d.bus].devices| &&
            busses[d.bus].devices[d.slot] == d.descriptor
  {
    EnumerateLocates(busses);
    var m := Matching(Enumerate(busses));
    assert m[deviceNum] in m;
  }

  /**
   * The libusb calls TemperCreate makes for `dev` after history `hist` under
   * the answers `status`, and the session it returns (None for NULL).
   * Detach answers are never consulted; set-configuration and the first
   * claim fail on a negative answer, the second claim on any nonzero one.
   */
  function CreateRun(status: seq<Call> -> int, hist: seq<Call>, dev: Device, timeout: int, debug: bool): (seq<Call>, Option<Temper>) {
    var h := status(hist + [Open(dev)]);
    if h == 0 then ([Open(dev)], None)
    else
      var prepared := [Open(dev), DetachKernelDriver(h, 0), DetachKernelDriver(h, 1), SetConfiguration(h, 1)];
      if status(hist + prepared) < 0 then (prepared + [Close(h)], None)
      else if status(hist + prepared + [ClaimInterface(h, 0)]) < 0 then (prepared + [ClaimInterface(h, 0), Close(h)], None)
      else if status(hist + prepared + [ClaimInterface(h, 0), ClaimInterface(h, 1)]) != 0 then
        (prepared + [ClaimInterface(h, 0), ClaimInterface(h, 1), Close(h)], None)
      else (prepared + [ClaimInterface(h, 0), ClaimInterface(h, 1)], Some(Temper(dev, h, debug, timeout)))
  }

  /** The calls TemperFree makes. */
  function FreeCalls(t: Option<Temper>): seq<Call> {
    if t.Some? && t.value.handle != 0 then [Close(t.value.handle)] else []
  }

  /** Whether the last call in history `hist` is a kernel-driver detach, so that libusb's answer to `hist` is that detach's result. */
  predicate AnswersDetach(hist: seq<Call>) {
    hist != [] && hist[|hist| - 1].DetachKernelDriver?
  }

  /** Whatever libusb answers to the two detach calls, TemperCreate makes the same calls and returns the same session. */
  lemma CreateIgnoresDetach(s1: seq<Call> -> int, s2: seq<Call> -> int, hist: seq<Call>, dev: Device, timeout: int, debug: bool)
    requires forall H :: !AnswersDetach(H) ==> s1(H) == s2(H)
    ensures CreateRun(s1, hist, dev, timeout, debug) == CreateRun(s2, hist, dev, timeout, debug)
  {
    var h := s1(hist + [Open(dev)]);
    assert !AnswersDetach(hist + [Open(dev)]);
    if h != 0 {
      var prepared := [Open(dev), DetachKernelDriver(h, 0), DetachKernelDriver(h, 1), SetConfiguration(h, 1)];
      assert !AnswersDetach(hist + prepared);
      assert !AnswersDetach(hist + prepared + [ClaimInterface(h, 0)]);
      assert !AnswersDetach(hist + prepared + [ClaimInterface(h, 0), ClaimInterface(h, 1)]);
    }
  }

  /** `calls` ends by closing `h`, and closes it nowhere else. */
  predicate ClosedOnceAtEnd(calls: seq<Call>, h: int) {
    calls != [] && calls[|calls| - 1] == Close(h) && Close(h) !in calls[..|calls| - 1]
  }

  /**
   * TemperCreate followed by TemperFree of its result closes every handle it
   * opened exactly once, as the very last call; it opens nothing else.
   */
  lemma CreateThenFreeReleases(status: seq<Call> -> int, hist: seq<Call>, dev: Device, timeout: int, debug: bool)
    ensures var run := CreateRun(status, hist, dev, timeout, debug);
            var h := status(hist + [Open(dev)]);
            var all := run.0 + FreeCalls(run.1);
            all[0] == Open(dev) && Open(dev) !in all[1..] &&
            (h == 0 ==> all == [Open(dev)]) &&
            (h != 0 ==> ClosedOnceAtEnd(all, h))
  {
    var h := status(hist + [Open(dev)]);
    var run := CreateRun(status, hist, dev, timeout, debug);
    var all := run.0 + FreeCalls(run.1);
    if h != 0 {
      var claims := [ClaimInterface(h, 0), ClaimInterface(h, 1)];
      var prepared := [Open(dev), DetachKernelDriver(h, 0), DetachKernelDriver(h, 1), SetConfiguration(h, 1)];
      if status(hist + prepared) < 0 {
        assert all == prepared + [Close(h)];
      } else if status(hist + prepared + [ClaimInterface(h, 0)]) < 0 {
        assert all == prepared + [ClaimInterface(h, 0), Close(h)];
      } else {
        assert all == prepared + claims + [Close(h)];
      }
      assert all[..|all| - 1] <= prepared + claims;
    }
  }

  /**
   * TemperCreate returns a session exactly when the open gives a non-NULL
   * handle, libusb accepts configuration 1 and the first claim (a
   * non-negative answer) and answers 0 to the second claim. That session
   * holds the open handle, on which configuration 1 was set and interface 0
   * then interface 1 were claimed, and which was not closed.
   */
  lemma CreatedSessionIsClaimed(status: seq<Call> -> int, hist: seq<Call>, dev: Device, timeout: int, debug: bool)
    ensures var h := status(hist + [Open(dev)]);
            var prepared := [Open(dev), DetachKernelDriver(h, 0), DetachKernelDriver(h, 1), SetConfiguration(h, 1)];
            CreateRun(status, hist, dev, timeout, debug).1.Some? <==>
              h != 0 && status(hist + prepared) >= 0 &&
              status(hist + prepared + [ClaimInterface(h, 0)]) >= 0 &&
              status(hist + prepared + [ClaimInterface(h, 0), ClaimInterface(h, 1)]) == 0
    ensures var (calls, t) := CreateRun(status, hist, dev, timeout, debug);
            t.Some? ==>
              var h := t.value.handle;
              h == status(hist + [Open(dev)]) && h != 0 && t.value.device == dev && t.value.timeout == timeout &&
              calls[3..] == [SetConfiguration(h, 1), ClaimInterface(h, 0), ClaimInterface(h, 1)] &&
              Close(h) !in calls
  {
  }

  /** Opens `dev` and takes both of its interfaces; NULL (None) when open, configuration or either claim fails. */
  method TemperCreate(usb: Libusb, dev: Device, timeout: int, debug: bool) returns (t: Option<Temper>)
    modifies usb
    ensures var run := CreateRun(usb.status, old(usb.log), dev, timeout, debug);
            usb.log == old(usb.log) + run.0 && t == run.1
  {
    ghost var hist := old(usb.log);
    var handle := usb.Issue(Open(dev));
    if handle == 0 {
      return None;
    }
    // A failed detach only ends up in the debug log.
    var ret := usb.Issue(DetachKernelDriver(handle, 0));
    ret := usb.Issue(DetachKernelDriver(handle, 1));
    var failed: bool;
    ret := usb.Issue(SetConfiguration(handle, 1));
    ghost var prepared := [Open(dev), DetachKernelDriver(handle, 0), DetachKernelDriver(handle, 1), SetConfiguration(handle, 1)];
    assert usb.log == hist + prepared;
    if ret < 0 {
      failed := true;
    } else {
      ret := usb.Issue(ClaimInterface(handle, 0));
      assert usb.log == hist + prepared + [ClaimInterface(handle, 0)];
      if ret < 0 {
        failed := true;
      } else {
        ret := usb.Issue(ClaimInterface(handle, 1));
        assert usb.log == hist + prepared + [ClaimInterface(handle, 0), ClaimInterface(handle, 1)];
        failed := ret != 0;
      }
    }
    if failed {
      ret := usb.Issue(Close(handle));
      return None;
    }
    return Some(Temper(dev, handle, debug, timeout));
  }

  /**
   * Walks every bus and every device on it, counting sensors from 0, and
   * opens the one whose count is `deviceNum`; None when there are not that many.
   */
  method TemperCreateFromDeviceNumber(usb: Libusb, busses: seq<Bus>, deviceNum: int, timeout: int, debug: bool)
    returns (t: Option<Temper>)
    modifies usb
    ensures Selected(busses, deviceNum).None? ==> t.None? && usb.log == old(usb.log)
    ensures Selected(busses, deviceNum).Some? ==>
              var run := CreateRun(usb.status, old(usb.log), Selected(busses, deviceNum).value, timeout, debug);
              usb.log == old(usb.log) + run.0 && t == run.1
  {
    var n := 0;
    var i := 0;
    while i < |busses|
      invariant 0 <= i <= |busses|
      invariant n == |Matching(Enumerate(busses[..i]))|
      invariant !(0 <= deviceNum < n)
      invariant usb.log == old(usb.log)
    {
      var devices := busses[i].devices;
      var j := 0;
      assert Enumerate(busses[..i]) + OnBus(i, devices)[..j] == Enumerate(busses[..i]);
      while j < |devices|
        invariant 0 <= j <= |devices|
        invariant n == |Matching(Enumerate(busses[..i]) + OnBus(i, devices)[..j])|
        invariant !(0 <= deviceNum < n)
        invariant usb.log == old(usb.log)
      {
        var dev := Device(i, j, devices[j]);
        WalkDevice(Enumerate(busses[..i]), OnBus(i, devices), j);
        if dev.descriptor.idVendor == VENDOR_ID && dev.descriptor.idProduct == PRODUCT_ID {
          if n == deviceNum {
            WalkPositionSelects(busses, i, j, deviceNum);
            t := TemperCreate(usb, dev, timeout, debug);
            return;
          }
          n := n + 1;
        }
        j := j + 1;
      }
      assert OnBus(i, devices)[..j] == OnBus(i, devices);
      WalkBus(busses, i);
      i := i + 1;
    }
    assert busses[..i] == busses;
    t := None;
  }

  /** Walking one more device adds one to the count exactly when it is a sensor. */
  lemma WalkDevice(walked: seq<Device>, devices: seq<Device>, j: nat)
    requires j < |devices|
    ensures |Matching(walked + devices[..j + 1])| == |Matching(walked + devices[..j])| + (if IsTemper(devices[j]) then 1 else 0)
  {
    assert (walked + devices[..j + 1])[..|walked| + j] == walked + devices[..j];
  }

  /** Finishing bus `i` extends the walk by exactly its devices. */
  lemma WalkBus(busses: seq<Bus>, i: nat)
    requires i < |busses|
    ensures Enumerate(busses[..i + 1]) == Enumerate(busses[..i]) + OnBus(i, busses[i].devices)
  {
    assert busses[..i + 1][..i] == busses[..i];
  }

  /** The sensor at bus `i`, device `j`, with `n` sensors walked before it, is the one selected for `n`. */
  lemma {:induction false} WalkPositionSelects(busses: seq<Bus>, i: nat, j: nat, n: int)
    requires i < |busses| && j < |busses[i].devices| && IsTemper(Device(i, j, busses[i].devices[j]))
    requires n == |Matching(Enumerate(busses[..i]) + OnBus(i, busses[i].devices)[..j])|
    ensures Selected(busses, n) == Some(Device(i, j, busses[i].devices[j]))
  {
    var pre := Enumerate(busses[..i]);
    var here := OnBus(i, busses[i].devices);
    WalkBus(busses, i);
    EnumeratePrefix(busses, i + 1);
    var ds := Enumerate(busses);
    var p := |pre| + j;
    assert ds[..|pre| + |here|] == pre + here;
    assert ds[..p] == pre + here[..j];
    assert ds[p] == here[j];
    NthMatchAt(ds, p);
  }

  /** Closes the session's handle, if there is a session and it has one. */
  method TemperFree(usb: Libusb, t: Option<Temper>)
    modifies usb
    ensures t.None? ==> usb.log == old(usb.log)
    ensures t.Some? ==> usb.log == old(usb.log) + (if t.value.handle != 0 then [Close(t.value.handle)] else [])
  {
    if t.Some? {
      if t.value.handle != 0 {
        var ret := usb.Issue(Close(t.value.handle));
      }
    }
  }
}
