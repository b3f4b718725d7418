# TEMPer USB sensor driver: a Dafny model

This project models the protocol driver and sampling loop of a small C program. The program reads a TEMPer HID thermometer (USB vendor 0x1130, product 0x660c) and publishes the reading to an MQTT broker. The model covers these parts:

- **Device selection.** `TemperCreateFromDeviceNumber` walks every USB bus and every device on it, counts the sensors it meets, and opens the one at the requested 0-based position.
- **Session set-up and release.** `TemperCreate` opens the device and detaches any kernel driver from interfaces 0 and 1; detach failures are ignored. It then sets configuration 1 and claims interface 0, then interface 1, stopping at the first failure. After a failure it closes the handle and returns NULL. `TemperFree` closes the handle of a non-NULL session.
- **Command framing.** `TemperSendCommand` zeroes a 32-byte report, stores the eight command bytes in front and sends it as a HID SET_REPORT. It succeeds only if the transfer reports exactly 32 bytes.
- **The read handshakes.** `TemperGetTemperatureInC` sends read mode, the 0x54 query, seven zero frames and result mode, then asks for 256 bytes. It does not check the return code of any send. `TemperGetOtherStuff` does the same with opcode 0x52 and a single query frame.
- **Decoding.** The first reply byte is read through a signed `char` and the second is masked. Together they form the big-endian two's-complement word `raw`. Celsius is `(raw + 1152) * 125/32000`, which is exactly `(raw + 1152)/256`.
- **The sampling loop.** Each pass reads the temperature. A failed read ends the loop. Otherwise the pass computes `F = 9/5*C + 32 + compensation` and hands it to `mqttPublish`. If the broker is not connected, `mqttPublish` drops the reading.

All libusb calls go through `Usb.Libusb`. This class records each call in `log`. The calls' answers come from two oracles fixed when the stack is created, each a function of the history of calls up to and including the one being answered. So every contract holds for any device and kernel behaviour. Contracts that never mention the oracle's answer to a call show that the driver ignores that answer (the sends of a read handshake, the two detaches).

Modules: `Usb` (the abstract libusb stack), `Conversion` (pure decoding), `Session` (selection, create, free), `Protocol` (framing and read handshakes), `Sampling` (publish gate, loop step, loop, start-up).

Points where the code behaves differently from what one might expect of such a driver; the model follows the code:

- One might expect a failed send to abort a read. The code ignores every send's return code, so a read always makes all ten sends.
- One might expect closing a session to be safe to repeat. `TemperFree` only checks for NULL and then frees the session, so a second call on the same session reads `t->handle` from freed memory and frees it again, which is undefined behaviour in C. The model has no memory and no `free`: there the second call simply closes the same handle again, and it makes no claim about what the C does.
- One might expect a failed claim to release the interfaces already claimed. The code calls `usb_close` only; it never calls `usb_release_interface`.
- One might expect only the termination signal to end the sampling loop. The code also exits when a read fails.

The first reply byte is modelled as a signed `char`, as on x86. On a platform whose `char` is unsigned (ARM, for example) a high byte of 0x80 or more would read as positive. `Conversion.NegativeHighByte` shows what the signed reading gives there. With a signed `char`, `buf[0] << 8` shifts a negative `int` left when the byte is 0x80 or more, which is undefined behaviour in C. `Conversion.Raw` gives it the value `v * 256`, the value compilers produce in practice; the model picks that reading.

A device is identified by the index of its bus and its position on that bus, standing for the pointer to libusb's device record. So two sensors with the same descriptor on different buses are different devices, and different sensor numbers open different devices.

## Model

| member | source | states |
|---|---|---|
| Usb.InStatus | main.c:315-320 | the value TemperGetData returns is negative exactly when the transfer failed, and otherwise the number of bytes copied into the buffer, never more than requested |
| Conversion.SignedChar | main.c:325-342 | a reply byte read through `char` lies in [-128, 127] and has the same 8 bits as the byte received |
| Conversion.Raw | main.c:342 | `(buf[1] & 0xFF) + (buf[0] << 8)` lies in [-32768, 32767] and is congruent modulo 65536 to the big-endian word `hi*256 + lo`, so it is that word read as two's complement |
| Conversion.Encode | main.c:342 | for every raw value in [-32768, 32767] there are two bytes that decode to it |
| Conversion.RawRoundTrip | main.c:342 | encoding the raw value of two bytes gives back those bytes |
| Conversion.RawInjective | main.c:342 | different byte pairs never give the same raw value |
| Conversion.Celsius | main.c:342-344 | the Celsius value equals `(raw + 1152) * (125.0/32000.0)` exactly and lies in [-123.5, 132.49609375] |
| Conversion.CelsiusMonotonic | main.c:342-344 | a larger raw value gives a strictly higher Celsius value |
| Conversion.FahrenheitInverse | main.c:481-482 | the Celsius value can be recovered from the compensated Fahrenheit value, so the conversion is one-to-one |
| Conversion.FahrenheitCompensation | main.c:481-482 | the compensation only shifts the result, and the conversion is strictly increasing |
| Conversion.ZeroReading | main.c:342-344 | bytes 00 00 give 4.5 C, which is 30.1 F with the default compensation of -10 |
| Conversion.SampleReading | main.c:342-344 | bytes 01 90 give raw 400 and 6.0625 C, which is 42.9125 F without compensation |
| Conversion.NegativeHighByte | main.c:342 | bytes FF FF read as raw -1 and bytes 80 00 as raw -32768 (-123.5 C): a high byte of 0x80 or more is negative |
| Session.EnumerateLocates | main.c:252-255 | every device the bus-then-device walk meets is listed on its bus at its slot, with that descriptor |
| Session.EnumeratePrefix | main.c:252-255 | walking the first `k` buses walks a prefix of the whole walk |
| Session.EnumerateDistinct | main.c:252-255 | the walk never meets the same device twice |
| Session.Matching | main.c:260 | the devices kept are exactly sensors (vendor 0x1130, product 0x660c) drawn from the walk, never more than were walked |
| Session.MatchingDistinct | main.c:260 | the sensors picked out of distinct devices are distinct |
| Session.MatchingAppend | main.c:252-255 | counting sensors over two stretches of the walk is counting over each in turn |
| Session.NonMatchingNeverCounts | main.c:260-270 | a device that is not a sensor never advances the counter: removing it from the walk changes no sensor's position |
| Session.NthMatchAt | main.c:260-269 | a sensor with `n` sensors walked before it is match number `n` |
| Session.NthMatchPosition | main.c:260-269 | match number `k` sits at a walk position with exactly `k` sensors before it |
| Session.SelectedIsNthMatch | main.c:246-275 | the device selected for `deviceNum` is the device `d` exactly when `d` is a sensor with `deviceNum` sensors before it in bus-then-device order |
| Session.SelectedDistinct | main.c:246-275 | two different sensor numbers never select the same device |
| Session.SelectedLocates | main.c:246-275 | the device selected for a sensor number is a sensor listed on its bus at its slot |
| Session.WalkPositionSelects | main.c:255-266 | the sensor at bus `i`, device `j`, with the counter equal to `deviceNum`, is the one selected |
| Session.TemperCreateFromDeviceNumber | main.c:246-275 | with fewer than `deviceNum + 1` sensors it makes no libusb call and returns NULL; otherwise it does exactly what TemperCreate does on the selected sensor |
| Session.TemperCreate | main.c:180-243 | makes the open, detach 0, detach 1, set-configuration 1, claim 0 and claim 1 calls in that order, stopping at the first failure with a close, and returns a session only if all succeed |
| Session.CreateIgnoresDetach | main.c:200-233 | whatever the two detach calls answer, TemperCreate makes the same calls and returns the same result |
| Session.CreateThenFreeReleases | main.c:235-242 | after TemperCreate and then TemperFree of its result, a handle that was opened has been closed exactly once, as the last call; a failed open makes no further call |
| Session.CreatedSessionIsClaimed | main.c:189-242 | TemperCreate returns a session if and only if the open gives a non-NULL handle, set-configuration and the first claim answer non-negative and the second claim answers 0; that session holds the open handle, on which configuration 1 was set and interfaces 0 and 1 were claimed, and which was not closed |
| Session.TemperFree | main.c:278-286 | NULL makes no call; otherwise the handle is closed once if it is non-NULL |
| Protocol.ToByte | main.c:295-302 | an `int` stored in an `unsigned char` keeps its value modulo 256 |
| Protocol.Frame | main.c:291-302 | a report is 32 bytes: the eight command bytes, each truncated to a byte, then 24 zero bytes |
| Protocol.FrameFromParts | main.c:294-302 | a zeroed 32-byte buffer with the eight bytes stored in front is the report |
| Protocol.FrameTruncates | main.c:295-302 | arguments that are equal modulo 256 give the same report: the report depends only on the low 8 bits of each argument |
| Protocol.FrameNegativeByte | main.c:295-302 | a negative argument is stored as its two's-complement byte: -1 becomes 255 |
| Protocol.FrameContents | main.c:328-335 | read mode and result mode differ only in byte 6 (2 versus 1); the queries carry 0x54 and 0x52 |
| Protocol.TemperatureFramesOrder | main.c:328-335 | the temperature handshake is ten frames: read mode, the 0x54 query, seven zero frames, result mode |
| Protocol.DecodeReply | main.c:337-344 | a read fails exactly when the data request failed or returned fewer than 2 bytes; otherwise its value is `(raw + 1152)/256` of the first two bytes |
| Protocol.SendCommand | main.c:289-312 | sends exactly one SET_REPORT (0x21, 9, 0x200, 1) carrying the report for a..h; returns 0 if and only if the transfer reports 32 bytes, else -1 |
| Protocol.GetData | main.c:315-320 | makes one GET_REPORT request (0xa1, 1, 0x300, 1) for `len` bytes, returns libusb's result and fills only the copied prefix of the buffer |
| Protocol.GetTemperatureInC | main.c:323-348 | always makes the ten handshake sends, whatever they return, then one 256-byte request; returns -1 and leaves `tempC` unchanged when fewer than 2 bytes come back, else 0 and the decoded Celsius value |
| Protocol.GetOtherStuff | main.c:351-357 | sends read mode, the 0x52 query and result mode, then requests `length` bytes and returns the request's result unchanged |
| Sampling.Broker.Publish | main.c:102-145 | when connected, exactly one message with the given temperature goes out; when not connected, nothing goes out and the drop is counted |
| Sampling.SampleStep | main.c:474-485 | a failed read publishes nothing; a successful one hands `9/5*C + 32 + compensation` to the publish step exactly once |
| Sampling.Published | main.c:472-488 | the values a run of `n` passes publishes number at most `n`, and exactly `n` when every read succeeds |
| Sampling.PublishedAt | main.c:479-485 | after `n` successful passes, published value `k` is the Fahrenheit form of the reading of pass `k` |
| Sampling.TickStep | main.c:472-485 | pass `n` reads right after the calls of the first `n` passes, and a successful pass adds its Fahrenheit value at the end of what is published |
| Sampling.Run | main.c:472-488 | the loop stops at the first failed read or after the given number of passes; each pass makes one full read; with the broker connected it publishes exactly the successful readings, in order, and otherwise it publishes none and counts each as dropped |
| Sampling.Service | main.c:451-488 | marks the broker connected, opens sensor 0 and exits with -1 if that fails; otherwise makes the auxiliary read, then runs the loop until the first failed read or `ticks` passes (every pass before it read successfully, and the log is exactly those reads), publishes every successful reading in order and exits with 1 |

## Left out

- The libusb library itself (`usb_open`, `usb_control_msg`, `usb_detach_kernel_driver_np`, `usb_set_configuration`, `usb_claim_interface`, `usb_close`, bus set-up). It is foreign code. Its answers are oracle inputs, and only the calls the driver makes are recorded.
- The `errno == ENODATA` test after a failed detach. Both of its branches only write to the debug log.
- Logging through log4c, and the `debug` flag's only effect, which is on logging.
- `calloc` and `free` in TemperCreate and TemperFree. The C code never checks whether `calloc` returned NULL. A session is a value here, so freeing its memory has no counterpart.
- The bus and device linked lists. They are sequences here, walked in the same order.
- MQTT and mDNS broker connection, `MQTT_Publish`, `MQTT_Teardown`. These are foreign library calls. The model keeps only the connected flag and the list of messages handed over.
- The JSON payload and its timestamp (`time`, `localtime`, `strftime`, `snprintf` with `%.1f`). These are clock access and float formatting. A message carries the topic, device number, location and the unrounded temperature.
- `parseCommandLine` and `help`. These are configuration input; compensation, topic, device number and location are parameters here.
- `sleep` between passes, and the signal handler that tears down the broker and exits. These are timing and asynchronous signal delivery. The loop's `ticks` bound stands for the moment the signal arrives.
- Sampling.Run: the C loop runs until a read fails or a signal arrives. The model stops after `ticks` passes instead. It does not model the exit itself.
- Conversion.FahrenheitInverse: the Fahrenheit step uses exact reals. In the C code `9.0/5.0` is not exact in binary floating point, so the published value may differ in its last bits. The Celsius step is exact in both.
- `usb_control_msg` writing more than `len` bytes is not modelled. A device that offers more is cut to `len`, as the USB request length enforces.
