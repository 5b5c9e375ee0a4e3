# Wio sauna monitor firmware — a Dafny model of its core

The firmware runs on a Wio Terminal. It reads an SHT3x ambient temperature
and humidity sensor over I2C and a DS18B20 water thermometer over 1-Wire. It
posts the readings as JSON to an Ambient channel over plain HTTP/1.1. The
HTTP client runs through the Wi-Fi coprocessor's blocking connect, send,
recv and close calls. This project models the parts of that firmware that
are logic rather than hardware:

- `content_length.dfy` (module `ContentLength`) — `find_content_length`.
  Its three loops (the pattern search, the search for CR/LF and the
  right-to-left digit accumulation in `u32`) are proved against a
  specification function. That function is "the digits between the first
  `content-length:` and the next line break". The search's fallback rule
  (restart at 1 on `c`, otherwise at 0) is proved to find exactly the first
  occurrence, because the pattern holds `c` only in its first byte.
- `request.dfy` (module `AmbientRequest`) — `create_request_for_ambient`.
  The JSON body is written into a local `String<256>`. The request line,
  the headers, the body and the extra newline of the outer `writeln!` are
  appended to the caller's `msg`. The declared `Content-Length` is the
  body's byte length, including its trailing LF.
- `http_post.dfy` (module `HttpPost`) — `http_post`. It covers the connect
  and its report, the `(len + 39) / 40` sends of 40-byte windows, the echo
  of the message, the receive loop, the `fin recv` report and the close.
  The coprocessor is a class whose results are a script and which logs
  every call. Every `writeln!(textbuffer, ..).unwrap()` is modelled,
  including the panic when the report does not fit the 256-byte buffer.
  The receive loop is proved to poll exactly the planned number of times.
- `ds18b20.dfy` (module `Ds18b20`) — `Ds18b20Wrapper::new`, `raw_to_cel`
  in sixteenths of a degree, and `measurement`, the retry loop of up to
  twenty convert-wait-read attempts over a scripted 1-Wire bus.
- `sht3x.dfy` (module `EnvIISensor`) — the `SHT3X` driver: the command
  write, the 6-byte read into a zeroed buffer, the raw-word decode over
  exact reals, and the two getters.
- `bounded_string.dfy` (module `Heapless`) — `heapless::String<N>` as a
  class over a fixed array. `push_str` appends all or nothing. `write_fmt`
  pushes the formatted pieces in turn and stops at the first that does not
  fit. `truncate(0)` empties the buffer.
- `bytes.dfy` (module `ByteText`) — bytes, ASCII literals, `{}` rendering
  of unsigned integers, and UTF-8 well-formedness as `String::from_utf8`
  checks it.
- `secrets.dfy` (module `Secrets`) — the configured channel, key, address
  and port, and the byte-order reading that makes `0x3BCE4136` the host
  54.65.206.59 and `0x5000` port 80.

Facts about the code that the model keeps as written:

- The receive loop starts its countdown at 20.
- Once the header is found, the countdown is reset to `(a + 511) / 512`,
  the number of 512-byte blocks that cover the declared length `a`.
- The status line of the response is not parsed.
- A failed `connect` is reported and the post carries on with the sends.
- `raw_to_cel` subtracts `0xFFFF` from a word whose sign bit is set, so a
  negative word reads one sixteenth above its two's-complement value
  (`0xFFF8` gives -7/16 degrees).
- The temperature word `0x663A` decodes to 24.88 degrees to two places.

Integer arithmetic is that of Rust's release profile, where an overflow
wraps; the widths are written out:

- The digit accumulation of `find_content_length` and the `(a + 511)`
  of the countdown wrap modulo 2^32.
- `time_ms() * 1000` wraps modulo 2^16.

A debug build checks these operations and halts instead; see "Left out".

## Model

| member | source | states |
|---|---|---|
| `Heapless.BoundedString.constructor` | src/main.rs:273 | `String::<N>::new()` is empty with capacity N |
| `Heapless.BoundedString.PushStr` | src/main.rs:288 | `push_str` succeeds iff the bytes fit; then the buffer is the old contents followed by them, otherwise it is unchanged |
| `Heapless.BoundedString.WriteFmt` | src/main.rs:210-212 | `writeln!` succeeds iff the rendered text fits, and then appends it exactly; on failure the buffer holds the old contents plus a prefix of the text |
| `Heapless.BoundedString.Clear` | src/main.rs:189-192 | `truncate(0)` leaves the buffer empty |
| `ByteText.ValidUtf8Concat` | src/main.rs:287-288 | appending well-formed UTF-8 to well-formed UTF-8 keeps it well-formed |
| `ContentLength.SearchPattern` | src/main.rs:343-365 | the first loop finds nothing exactly when `content-length:` never occurs, and otherwise gives one past the `:` of its first occurrence |
| `ContentLength.SearchStep` | src/main.rs:346-358 | one step of the restart-at-`c` matcher keeps "the last j bytes begin the pattern, no occurrence was skipped", and reaching 15 means the first occurrence ends here |
| `ContentLength.FirstOccurrenceIsFirst` | src/main.rs:346-363 | the reference search returns an occurrence with none before it, and nothing only when there is none |
| `ContentLength.FindLineEnd` | src/main.rs:367-375 | `p_end` is the first CR or LF at or after `p_start`, and stays 0 when there is none |
| `ContentLength.ParseDigits` | src/main.rs:377-388 | the right-to-left loop yields the decimal value of the digits in `[p_start, p_end)` with every other byte skipped, modulo 2^32; an empty or inverted range gives 0 |
| `ContentLength.FindContentLength` | src/main.rs:342-389 | the scanner returns exactly the specification: `Err` without the pattern, otherwise the value of the digits between the first `content-length:` and the next line break |
| `ContentLength.ErrIffNoPattern` | src/main.rs:361-363 | the result is `Err` if and only if the pattern occurs nowhere in the text |
| `ContentLength.OccursAtIsSlice` | src/main.rs:343 | an occurrence is exactly the fifteen lower-case bytes `content-length:` |
| `ContentLength.NoLowerCMeansErr` | src/main.rs:343-363 | text without a lower-case `c`, including a capitalised `Content-Length:` header, gives `Err` |
| `ContentLength.HeaderLine` | src/main.rs:343-388 | after any prefix holding no complete `content-length:` of its own, whatever other headers it holds, `content-length:<field><line break>` gives the value of the field's digits |
| `ContentLength.NoLineBreakGivesZero` | src/main.rs:367-380 | when no CR or LF follows the first occurrence of the pattern, the result is `Ok(0)`, whatever else the text holds |
| `ContentLength.TailWithoutLineBreak` | src/main.rs:343-380 | a pattern-free prefix, the pattern and a tail without CR or LF give `Ok(0)` |
| `ContentLength.ShortFieldIsExact` | src/main.rs:378-385 | with at most nine digits nothing wraps in `u32`: the result is the exact decimal value |
| `ContentLength.DecimalRoundTrip` | src/main.rs:218-220 | reading back the `{}` rendering of a number gives the number |
| `ContentLength.DecimalLength` | src/main.rs:218-220 | a number below 10^k renders in at most k digits |
| `ContentLength.ExampleSeventeen` | src/main.rs:342-389 | `HTTP/1.1 200 OK\r\ncontent-length: 17\r\n\r\n{"ok":true}` gives 17 |
| `ContentLength.ExampleZero` | src/main.rs:342-389 | `content-length:0\r\n` gives 0 |
| `ContentLength.ExampleNoHeader` | src/main.rs:342-363 | a response without the header gives `Err` |
| `ContentLength.ExampleCapitalised` | src/main.rs:343-363 | `Content-Length: 2\r\n` gives `Err` |
| `AmbientRequest.CreateRequestForAmbient` | src/main.rs:206-223 | succeeds iff the body fits its 256-byte buffer and the request fits what is left of `msg`, and then appends exactly header, body and one LF to `msg`'s old contents |
| `AmbientRequest.BodyText` | src/main.rs:210-212 | the body is `{"writeKey":"<key>","d1":"<F1>","d2":"<F2>","d3":"<F3>"}` followed by LF |
| `AmbientRequest.HeaderText` | src/main.rs:215-218 | the header is the request line with the channel id, `Host: 54.65.206.59`, `Content-Type: application/json`, `Content-Length: <n>` and a blank line |
| `AmbientRequest.RequestLayout` | src/main.rs:215-222 | the request is the header, then the body, then one extra LF |
| `AmbientRequest.DeclaredLengthIsBodyLength` | src/main.rs:218-220 | the digits before the blank line read back as the body's byte length |
| `AmbientRequest.OneByteBeyondDeclared` | src/main.rs:215-222 | after the header come body length + 1 bytes: the body and the extra LF |
| `AmbientRequest.BodyShape` | src/main.rs:210-212 | the body is 40 template bytes plus the key and readings, opens with `{` and ends in LF |
| `AmbientRequest.BodyFitsIff` | src/main.rs:207-212 | the body's `unwrap` panics exactly when key and readings exceed 216 bytes |
| `AmbientRequest.RequestLength` | src/main.rs:215-222 | the request is 111 template bytes plus the two rendered numbers and the body |
| `AmbientRequest.ShortReadingsFit` | src/main.rs:206-223 | with at most 92 bytes of key and readings and an empty `msg`, neither `unwrap` panics |
| `HttpPost.Wifi.Connect` | src/main.rs:232 | `connect` answers from the script and is logged with its address, port and timeout |
| `HttpPost.Wifi.Send` | src/main.rs:253 | `send` takes the next scripted answer and is logged with its bytes |
| `HttpPost.Wifi.Recv` | src/main.rs:284 | `recv` takes the next scripted answer, `Err` past the end |
| `HttpPost.Wifi.Close` | src/main.rs:326 | `close` answers from the script and is logged |
| `HttpPost.Report` | src/main.rs:235-237 | `writeln!(..).unwrap()`, draw, `truncate(0)`: panics iff the report does not fit, otherwise leaves the buffer empty |
| `HttpPost.ChunkSizes` | src/main.rs:248-253 | every window is 1 to 40 bytes, and all but the last are exactly 40 |
| `HttpPost.ChunkCountIsLeast` | src/main.rs:248 | `(len + 39) / 40` windows cover the message, and one fewer would not |
| `HttpPost.ChunksRebuildMessage` | src/main.rs:248-253 | the windows concatenate to the message |
| `HttpPost.FirstSendFailureIsFirst` | src/main.rs:249-265 | the failure found is the first window whose slice panics or whose send fails, and none means all slices and sends succeed |
| `HttpPost.AsciiSlicesOk` | src/main.rs:253 | an ASCII message never has a window cut through a character |
| `HttpPost.SendPiece` | src/main.rs:250-265 | one pass slices window i, sends it, and reports then aborts on `Err` |
| `HttpPost.SendChunks` | src/main.rs:248-266 | the sends made are windows 0, 1, … in order up to the first failure, which ends the loop; without failure all `(len + 39) / 40` are sent |
| `HttpPost.SendCallsCarry` | src/main.rs:248-266 | the first n sends carry the message up to byte 40n |
| `HttpPost.PollOnce` | src/main.rs:280-297 | a poll pushes a progress mark, receives, panics on non-UTF-8 or an over-long "Ok" report, and otherwise appends an `Ok` chunk whole or drops it whole |
| `HttpPost.ReportLength` | src/main.rs:307-309 | the "find content length" report always fits the emptied text buffer |
| `HttpPost.Countdown` | src/main.rs:298-313 | `countdown -= 1`; while no length is known, a successful scan sets it and resets the countdown to `(a + 511) / 512`; the state stays on the planned schedule |
| `HttpPost.Advance` | src/main.rs:298-313 | the countdown step and the report of a found length keep the loop on its planned schedule |
| `HttpPost.Poll` | src/main.rs:279-316 | one pass of the loop body either panics with the plan's first panic or leaves the state on plan |
| `HttpPost.ReceiveLoop` | src/main.rs:272-316 | the loop's outcome and number of `recv` calls are exactly those of the plan computed from the script |
| `HttpPost.AccumGrows` | src/main.rs:273-288 | the accumulator never exceeds 4096 bytes and only grows at its end |
| `HttpPost.AbsorbStep` | src/main.rs:284-295 | a `recv` error leaves the accumulator unchanged; an `Ok` chunk is appended whole if it fits and dropped whole otherwise |
| `HttpPost.AccumUtf8` | src/main.rs:287-288 | after polls that did not panic, the accumulator is well-formed UTF-8 |
| `HttpPost.BudgetFacts` | src/main.rs:305 | `(a + 511) / 512` is 0 for a = 0, the number of 512-byte blocks covering a otherwise, and 0 again when the `u32` addition wraps |
| `HttpPost.PollsWhenNeverFound` | src/main.rs:274-315 | if the scanner never succeeds the loop polls exactly 20 times |
| `HttpPost.PollsWhenFoundAt` | src/main.rs:300-315 | if it first succeeds after poll k reading a, the loop polls exactly `k + (a + 511) / 512` times, so for a = 0 it ends in that same poll |
| `HttpPost.FirstFoundIsFirst` | src/main.rs:300-313 | the planned poll that finds the length has no successful scan before it |
| `HttpPost.FirstAbortIsFirst` | src/main.rs:284-292 | the planned panic is the first poll that panics |
| `HttpPost.ReceivedFacts` | src/main.rs:272-316 | a loop that ends normally made the planned polls, none panicked, and returns well-formed UTF-8 of at most 4096 bytes |
| `HttpPost.HttpPost` | src/main.rs:225-339 | the outcome and the exact sequence of coprocessor calls are those of the specification for the scripted answers |
| `HttpPost.SendAndReceive` | src/main.rs:248-270 | the chunked send and the echo of `msg`, then what follows, as specified |
| `HttpPost.ReceiveAndClose` | src/main.rs:272-336 | the receive loop, the `fin recv` report and `close`, whose result is only reported |
| `HttpPost.ConnectLineFits` | src/main.rs:235-243 | either connect report fits an empty text buffer for a message of up to 256 bytes |
| `HttpPost.ConnectFailureOnlyReported` | src/main.rs:232-244 | a failed connect leads to the same outcome as a successful one: the sends are not skipped |
| `HttpPost.AsciiMessageSlicesCleanly` | src/main.rs:253 | an ASCII request never ends the post with a bad-slice panic |
| `HttpPost.PostedFacts` | src/main.rs:225-339 | a post that returns sent every window, accepted, reassembling the message; polled the planned number of times; and keeps the UTF-8 response, of at most 246 bytes |
| `Ds18b20.New` | src/ds18b20_wrapper.rs:18-27 | the wrapper is built exactly when the driver accepts the device, and holds that device |
| `Ds18b20.RawToCelVsInt16` | src/ds18b20_wrapper.rs:29-36 | words up to `0x7FFF` read as themselves; higher words read one sixteenth above their `i16` value; the range is [-32767, 32767] |
| `Ds18b20.RawToCelSamples` | src/ds18b20_wrapper.rs:31-33 | `0xFFF8` gives -7/16 against -8/16 for `i16`; `0xFFFF` and `0x0000` both give 0 |
| `Ds18b20.RawToCelInjective` | src/ds18b20_wrapper.rs:29-34 | apart from `0xFFFF`, distinct words give distinct readings |
| `Ds18b20.WaitUs` | src/ds18b20_wrapper.rs:43 | the `u16` wait equals `time_ms() * 1000` exactly when `time_ms()` is at most 65 |
| `Ds18b20.WaitWraps` | src/ds18b20_wrapper.rs:43 | a 750 ms conversion time asks for only 29104 µs |
| `Ds18b20.OneWireBus.MeasureTemperature` | src/ds18b20_wrapper.rs:42 | a conversion start takes the next scripted answer and is logged |
| `Ds18b20.OneWireBus.DelayUs` | src/ds18b20_wrapper.rs:43 | the wait is logged with its microsecond count |
| `Ds18b20.OneWireBus.ReadTemperature` | src/ds18b20_wrapper.rs:44 | a read takes the next scripted answer and is logged |
| `Ds18b20.MeasurementFromShape` | src/ds18b20_wrapper.rs:39-52 | at most 20 attempts are made, and every conversion before the last attempt succeeded |
| `Ds18b20.Measurement` | src/ds18b20_wrapper.rs:38-54 | from the bus's not-yet-given answers, the loop returns the specified outcome and performs exactly its convert, wait and read operations |
| `Ds18b20.FirstReadWins` | src/ds18b20_wrapper.rs:44-49 | a first successful read in attempt k returns `raw_to_cel` of its word after exactly k attempts |
| `Ds18b20.AllReadsFail` | src/ds18b20_wrapper.rs:40-53 | twenty failed reads return the sentinel 100.0 degrees (1600 sixteenths) |
| `Ds18b20.ConversionErrorPanics` | src/ds18b20_wrapper.rs:42 | a failed conversion start panics rather than counting as a failed trial |
| `Ds18b20.ReadingRange` | src/ds18b20_wrapper.rs:29-54 | a result is the sentinel or lies in [-32767, 32767] sixteenths |
| `EnvIISensor.I2cBus.WriteBytes` | src/env_ii_sensor.rs:25 | a write is logged with its address and bytes |
| `EnvIISensor.I2cBus.ReadBytes` | src/env_ii_sensor.rs:27-28 | a read leaves the next scripted bytes in the buffer whether it reports success or failure, and reports success only for a successful reply of the buffer's length |
| `EnvIISensor.RawWord` | src/env_ii_sensor.rs:30-31 | a raw word `hi * 256 + lo` lies in [0, 65535] |
| `EnvIISensor.Sht3x.constructor` | src/env_ii_sensor.rs:15-22 | `new` stores the address and bus and sets both readings to 0.0 |
| `EnvIISensor.Sht3x.Measure` | src/env_ii_sensor.rs:23-32 | writes exactly `[0x2C, 0x06]` and reads 6 bytes at the stored address, ignoring both results, then stores the decode of whatever the read left in the zeroed buffer; both readings stay in range |
| `EnvIISensor.Sht3x.GetTemp` | src/env_ii_sensor.rs:34-36 | returns the stored temperature, in [-45, 130], and changes nothing |
| `EnvIISensor.Sht3x.GetHumid` | src/env_ii_sensor.rs:38-40 | returns the stored humidity, in [0, 100], and changes nothing |
| `EnvIISensor.ReadingsInRange` | src/env_ii_sensor.rs:30-31 | any reply decodes to a temperature in [-45, 130] and a humidity in [0, 100] |
| `EnvIISensor.ZeroReplyReadings` | src/env_ii_sensor.rs:27-31 | a buffer still zeroed decodes to -45 degrees and 0 percent |
| `EnvIISensor.FullScaleReadings` | src/env_ii_sensor.rs:30-31 | full-scale words decode to 130 degrees and 100 percent |
| `EnvIISensor.CrcBytesIgnored` | src/env_ii_sensor.rs:30-31 | bytes 2 and 5 do not affect the readings |
| `EnvIISensor.SampleTemperature` | src/env_ii_sensor.rs:30 | the word `0x663A` decodes to 24.88 degrees |
| `EnvIISensor.DecodeMonotone` | src/env_ii_sensor.rs:30-31 | readings rise with the raw words |
| `Secrets.LittleEndianRoundTrip` | src/secrets.rs:9 | a `u32`'s little-endian bytes rebuild it |
| `Secrets.AddressIsAmbientHost` | src/secrets.rs:9-10 | `0x3BCE4136` stored little-endian is 54.65.206.59, and `0x5000` read in network order is port 80 |
| `Secrets.HostLineNamesAddress` | src/main.rs:216 | the connected address in dotted decimal is the request's `Host:` line |
| `Secrets.ConfiguredRequestFits` | src/secrets.rs:7-8 | with the configured key and channel, readings of up to 83 bytes never overflow either buffer |

## Left out

- Peripheral, clock, pin and display set-up and the drawing of text. They
  are hardware and library calls. A report is modelled only as the
  `writeln!` into the text buffer and the `truncate(0)` after it.
- The Wi-Fi singleton, the interrupt-free critical section and the RPC
  transport. They are concurrency and foreign code. The coprocessor is a
  scripted peer: a send past its script succeeds, a receive past it fails.
- The onewire crate's bus protocol, ROM search and CRC, and `DS18B20::new`'s
  own check. They are foreign code, so their answers are parameters.
- The `f32` arithmetic and its `{}` rendering. Readings enter the request
  as already-rendered byte strings. The DS18B20 value is in integer
  sixteenths, and the SHT3x readings are exact reals.
- The main loop's sequencing and delays. They are timing and display only,
  and the loop never calls `http_post`.
- HTTP status-code parsing. The firmware does not implement it.
- HttpPost.Wifi.Send: a successful send is modelled without a byte count.
  A partial write by the coprocessor is not modelled.
- ContentLength.ParseDigits: models the release profile, where `n *= 10`
  and `ret += ..` wrap modulo 2^32. A debug build panics there instead,
  for every field of ten or more digits.
- HttpPost.Budget: models the release profile, where `body_length + 511`
  wraps modulo 2^32. A debug build panics for a declared length of
  2^32 - 511 or more. HttpPost.Countdown inherits this.
- Ds18b20.WaitUs: models the release profile, where `time_ms() * 1000`
  wraps modulo 2^16. A debug build panics once `time_ms()` is 66 or more,
  which includes the 750 ms of a 12-bit conversion, so `measurement`
  would halt at its first trial.
- EnvIISensor.I2cBus.ReadBytes: past the end of its script, or when a
  scripted reply has another length than the buffer, a read fails and
  leaves the buffer as it was. What the HAL leaves there is not modelled
  beyond the script.
