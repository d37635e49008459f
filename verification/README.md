# EstGeiger, modelled in Dafny

EstGeiger is three MicroPython scripts for an ESP32 board wired to a CAJOE
Geiger counter. A falling edge on pin 34 raises an interrupt whose callback
increments `interruptCounter`.

- `geiger_counter.py` polls in a loop. When more than `LOG_PERIOD` (10 s)
  has passed since the last window, it turns the pending count into counts
  per minute (`cpm = count * MAX_PERIOD / LOG_PERIOD`), shows it on an OLED
  and resets the counter.
- `web_geiger_counter.py` does the same window check once per accepted HTTP
  connection. It then reads the request headers up to the blank line and
  answers with an HTML page holding a one-row table with the cpm.
- `main.py` waits at most 20 attempts for Wi-Fi and builds an MQTT client id
  from three random bytes. Every 30 s it publishes `2 * count` as
  `field1=<cpm>` to a ThingSpeak channel topic, with no elapsed-time check.

The Dafny project has six modules:

- `Text` (`text.dfy`): decimal text of integers, Python's `%` operator for
  `%s`, `%d` and `%%` with its error cases, `str.join`, and reading a
  decimal back.
- `Ticks` (`ticks.dfy`): `utime.ticks_diff` as a signed modular difference
  over the 2^30 tick period. Also an uptime clock that adds up tick
  differences between readings.
- `Pulses` (`pulses.dfy`): the interrupt counter as a class. Ghost
  bookkeeping proves that no pulse is lost or counted twice.
- `RateWindow` (`rate_window.dfy`): the window check.
  - As a pure state machine over a trace of pulses and polls, with lemmas
    about whole runs.
  - As the class `Estimator`, whose methods update the loop's globals in
    place.
- `WebResponder` (`web_responder.dfy`): the header-drain loop, row and page
  rendering, and one pass of the server loop.
- `Telemetry` (`telemetry.dfy`):
  - the Wi-Fi wait loop;
  - the little-endian decoder behind the client id;
  - topic and payload text;
  - the publishing cycle as the class `TelemetryNode`.

The HTML page follows the literal template in `web_geiger_counter.py`
(lines 41-48): every line break, space and the `border="1"` attribute are
kept as written there.

## Model

| member | source | states |
|---|---|---|
| Text.Decimal | web_geiger_counter.py:93 | The `%d` text of a count is a non-empty run of digits, with a leading zero only for zero. |
| Text.DecimalRoundTrip | main.py:43 | Reading the decimal text of any n back gives n, so `str(randomNum)` and `%d` lose nothing. |
| Text.ParseDecimalOnlyDecimal | main.py:43 | The reader takes only canonical numerals. A text that reads back to n is exactly the decimal text of n, so a read-back contract fixes the text. |
| Text.FormatPlain | web_geiger_counter.py:94 | An ordinary character at the front of a template is copied to the output. |
| Text.FormatLiteral | web_geiger_counter.py:94 | Template text without `%` passes through `%` formatting unchanged and consumes no argument. |
| Text.Format | web_geiger_counter.py:93-94 | `template % args`: a template without `%` formats to itself when no argument is given and is refused (arguments not all converted) when one is. Its directive cases are stated by the lemmas below. |
| Text.Join | web_geiger_counter.py:94 | `sep.join(parts)` starts with the first part and is as long as all parts plus one separator per gap. A single part is returned unchanged. |
| Text.JoinAppend | web_geiger_counter.py:94 | Joining one more part appends the separator and that part, which fixes the text of every multi-part join. |
| Text.FormatDirective | web_geiger_counter.py:93 | A leading `%s` or `%d` consumes exactly one argument and inserts its conversion. |
| Text.FormatOneString | web_geiger_counter.py:94 | A template with a single `%s` and one string argument yields the text around it with the argument in place. |
| Text.FormatStringThenInt | web_geiger_counter.py:93 | A template `…%s…%d…` with a string and an integer yields both in order, the integer in decimal. |
| Text.BetweenFrames | web_geiger_counter.py:94 | A text from which Between takes a middle is exactly head + middle + tail. |
| Text.BetweenOf | web_geiger_counter.py:94 | The part between a known head and tail is recovered exactly from their concatenation. |
| Ticks.TicksDiff | geiger_counter.py:46 | `ticks_diff` lies in [-2^29, 2^29) and agrees with `end - start` modulo the 2^30 tick period. |
| Ticks.TicksDiffRecoversElapsed | geiger_counter.py:40-46 | If less than half a tick period has passed, the tick difference is exactly the elapsed time, even across a rollover. |
| Ticks.WrappedDifference | geiger_counter.py:46 | A reading that has rolled over (5 after 2^30 - 3) gives a difference of 8. |
| Ticks.UptimeClock.Read | geiger_counter.py:40-46 | The corrected clock, not what line 46 computes. Each reading advances the uptime by the tick difference since the previous reading, and the real time by the elapsed time. If the clock agreed with the real time and the reading comes less than 2^29 ms after the previous one, it still agrees, so it agrees after every run of such readings. |
| Pulses.SumAppend | geiger_counter.py:49-56 | Appending a drained count adds it to the total drained. |
| Pulses.PulseCounter.constructor | geiger_counter.py:21 | The counter starts at zero with nothing counted or drained. |
| Pulses.PulseCounter.Pulse | geiger_counter.py:25-27 | The callback increases the count by exactly one. The pulse total grows by one and nothing else changes. |
| Pulses.PulseCounter.Drain | geiger_counter.py:49-56 | The pending count is returned and reset to zero. The pulse total stays the same, so every pulse is accounted for. |
| RateWindow.Multiplier | geiger_counter.py:16-18 | `multiplier` times LOG_PERIOD is MAX_PERIOD exactly. |
| RateWindow.AfterPulse | geiger_counter.py:25-27 | A pulse raises the counter by one and leaves the boundary and cpm unchanged. |
| RateWindow.AfterPoll | geiger_counter.py:47-56 | A firing poll empties the counter, takes the elapsed time as the boundary and reports cpm with cpm × LOG_PERIOD = count × MAX_PERIOD. A poll that does not fire changes nothing. |
| RateWindow.Run | geiger_counter.py:44-56 | After any trace of pulses and polls, the boundary has not moved back and the counter holds at most the initial count plus the pulses seen. |
| RateWindow.PulseTrain | geiger_counter.py:25-27 | A burst of n interrupts is n pulse events. |
| RateWindow.WindowBoundary | geiger_counter.py:16-49 | From any state, a difference of exactly 10000 ms leaves the state unchanged. 10001 ms fires: the boundary is taken, cpm = 6 × count, the counter is reset, and zero pulses give cpm 0. |
| RateWindow.LatePollScalesNominal | geiger_counter.py:47-49 | Every firing poll computes the same cpm from the same count, however late it is. cpm × LOG_PERIOD = count × MAX_PERIOD. |
| RateWindow.PulsesConserved | geiger_counter.py:44-56 | Over any trace, the initial count plus the pulses seen equals the counts drained by firing polls plus the pending count. |
| RateWindow.CpmIsLastDrain | web_geiger_counter.py:77-79 | After any trace, cpm is the initial cpm if no window fired, otherwise the last drained count times the multiplier. |
| RateWindow.BoundariesAdvance | geiger_counter.py:47-48 | `previousMillis` never decreases. Once a window has fired, it lies more than LOG_PERIOD past the starting boundary. |
| RateWindow.RunPulses | geiger_counter.py:25-27 | Pulses alone only raise the counter by their number. |
| RateWindow.PulsesThenPoll | geiger_counter.py:47-56 | n pulses then a firing poll at t give counter 0, previousMillis t and cpm (count + n) × multiplier. |
| RateWindow.TwelvePulsesReport72 | geiger_counter.py:47-49 | Twelve pulses in the first ten-second window report 72 CPM. |
| RateWindow.StartRelativeWindowFreezes | geiger_counter.py:46-47 | As written, once a window closes within LOG_PERIOD + 1 ms of 2^29 ms after start, no later poll fires. cpm is frozen and the counter only grows. |
| RateWindow.StartRelativeMissesWindow | geiger_counter.py:40-47 | A window closing at 2^29 - 1 ms and a poll 20000 ms later (tick difference 20000) that does not fire. |
| RateWindow.UptimePollFiresOnElapsed | geiger_counter.py:46-47 | The corrected rule: with the uptime clock, a poll fires exactly when more than LOG_PERIOD has really passed since the window, at any uptime, provided the clock was last read less than 2^29 ms (about 6.2 days) before. |
| RateWindow.Estimator.constructor | geiger_counter.py:19-21 | The loop starts with counter 0, boundary 0 and cpm 0. |
| RateWindow.Estimator.Poll | geiger_counter.py:47-56 | The poll fires iff the difference exceeds LOG_PERIOD. The new state is AfterPoll of the old one, no pulse is lost, and a firing poll records one drain of the old count. |
| RateWindow.Estimator.PollSinceStart | geiger_counter.py:46-56 | One pass of the display loop as written: the window is checked with `ticks_diff(now, start)` as elapsed time, and the state, fired flag and drains follow AfterPoll with that time. |
| RateWindow.Estimator.PollClock | geiger_counter.py:46-56 | The corrected pass, not what line 46 computes. The uptime clock is read once, then the window is checked with that elapsed time. While the clock agrees with the real time and readings are less than 2^29 ms apart, the window fires exactly when more than LOG_PERIOD has really passed. |
| RateWindow.Estimator.Replay | geiger_counter.py:44-56 | Interrupts and loop passes applied in order leave the state of Run on the trace. The pulses counted and the drains recorded are those of the trace. |
| WebResponder.StopsAtRequestEndUnique | web_geiger_counter.py:88-91 | At most one line count stops at the request end: the first end-of-stream or CR LF line. |
| WebResponder.NoBlankLineReadsAll | web_geiger_counter.py:88-91 | A request with no blank line is read to the end of the stream. |
| WebResponder.DrainRequest | web_geiger_counter.py:88-91 | The loop ends. It consumes lines up to and including the first empty or CR LF line, or all lines if there is none, and leaves the rest unread. |
| WebResponder.RenderRow | web_geiger_counter.py:93 | Formatting the row never fails, and the row is `<tr><td>CPM</td><td>` + decimal cpm + `</td></tr>`. |
| WebResponder.RowTemplateParts | web_geiger_counter.py:93 | The row template is two `%` directives between literal pieces that hold no `%`. |
| WebResponder.HtmlHeadNoPercent | web_geiger_counter.py:41-45 | The page template has no `%` before its single `%s`. |
| WebResponder.HtmlTailNoPercent | web_geiger_counter.py:45-48 | The page template has no `%` after its single `%s`. |
| WebResponder.RenderResponse | web_geiger_counter.py:93-94 | The response is the template with the single joined row at `%s`. All other template text is unchanged, and formatting never fails. |
| WebResponder.ServedCpmRoundTrip | web_geiger_counter.py:93-95 | Rendering never fails, and the number a reader takes from the CPM cell is exactly the cpm rendered. |
| WebResponder.Serves72 | web_geiger_counter.py:93-94 | A cpm of 72 is served as the cell text `72`. |
| WebResponder.Row72 | web_geiger_counter.py:93 | The row for 72 is `<tr><td>CPM</td><td>72</td></tr>`. |
| WebResponder.ServeConnection | web_geiger_counter.py:69-96 | Per connection the window is checked exactly once, with `ticks_diff(now, start)` as elapsed time, and no pulse is lost. Then the request is drained. The response carries the cpm as it stands after that check. |
| Telemetry.AwaitWifi | main.py:34-39 | At most 20 attempts. No connection before the last check. Fewer attempts than the maximum means the next check found a connection. |
| Telemetry.FromBytesLittle | main.py:42 | The little-endian value of k bytes is below 256^k. |
| Telemetry.ToBytesLittle | main.py:42 | Encoding a value into len bytes yields exactly len bytes. |
| Telemetry.DecodeEncode | main.py:42 | Decoding the encoding of n < 256^len gives n back. |
| Telemetry.EncodeDecode | main.py:42 | Encoding the decoded value of a byte string gives the same bytes back. |
| Telemetry.ThreeBytes | main.py:42 | Three bytes decode to b0 + 256·b1 + 65536·b2, which is below 2^24. |
| Telemetry.ClientId | main.py:42-43 | The client id reads back to the number decoded from the random bytes. |
| Telemetry.ClientIdExact | main.py:42-43 | Any text that reads back to that number is exactly the client id, so the id is `client_` followed by the canonical decimal text. |
| Telemetry.IndexOf | main.py:109 | Finds the first occurrence of a character, or reports that there is none. |
| Telemetry.IndexOfFirst | main.py:109 | A character found at i and nowhere before is reported at i. |
| Telemetry.Topic | main.py:109 | The topic `channels/<id>/publish/<key>` reads back to its channel id and key when the id has no `/`. |
| Telemetry.Payload | main.py:110 | The payload reads back to the cpm it carries. |
| Telemetry.PayloadExact | main.py:110 | Any text that reads back to cpm is exactly the payload, so the payload is `field1=` + canonical decimal cpm + `.00\n`. |
| Telemetry.ZeroPayload | main.py:110 | An empty cycle publishes `field1=0.00\n`. |
| Telemetry.TelemetryMultiplier | main.py:72-74 | The telemetry multiplier 60000 / 30000 is 2. |
| Telemetry.TelemetryNode.constructor | main.py:76-77 | The node starts with cpm 0 and an empty counter, and keeps the channel id and write key. |
| Telemetry.TelemetryNode.Cycle | main.py:97-112 | Each cycle sets cpm to twice the pending count and resets the counter without losing a pulse. The topic and the payload carrying that cpm are built. |

## Left out

- Pin and IRQ setup are left out. An interrupt is the `Pulse` method or a `PulseEdge` event between loop steps.
- The race between reading `interruptCounter` and zeroing it is left out. That is interrupt concurrency, and the model is sequential.
- OLED output and `print` are left out. Both are display I/O.
- `str(cpm)` is left out. Its float text such as `72.0` only reaches the display.
- Wi-Fi association, the MQTT client (connect, publish, disconnect) and the sockets (bind, listen, accept, send, close) are foreign I/O and are left out. The accepted request arrives as a sequence of lines. The published topic and payload are returned values.
- `isconnected()` answers are a parameter, `uos.urandom(3)` is a byte-sequence parameter and `utime.ticks_ms()` readings are parameters.
- `utime.sleep` is left out; time enters only through the tick readings.
- `gc.mem_free` is left out. Its value is never published.
- `while True` loops are modelled as one pass each (`PollSinceStart` for the display loop, `ServeConnection`, `Cycle`) or as a finite trace (`Replay`). The model says nothing about non-termination.
- Float arithmetic is not modelled. `multiplier` is a float in the scripts, but the constants make it a whole number (6 or 2), and the model uses that integer factor.
- Telemetry.Payload: `{:.2f}` is modelled only for whole-number cpm, as decimal digits followed by `.00`. General float rounding is not modelled.
- Text.Format: only the `%s`, `%d` and `%%` conversions are modelled. Other specifiers, flags, widths and precisions are reported as unsupported once an argument has been taken. Error messages are not modelled, only which error occurs.
- Ticks.UptimeClock.Read and RateWindow.Estimator.PollClock model the corrected elapsed time, not the scripts' `ticks_diff(ticks_ms(), startMillis)`. The scripts' own passes are RateWindow.Estimator.PollSinceStart and WebResponder.ServeConnection.
- The `bytes(…, 'utf-8')` encodings are left out. Topic, payload and client id stay text, since they are ASCII.
- The channel id and write key are `bytes` in main.py:66-67. They are modelled as their text: MicroPython's `str.format` inserts the characters of a bytes argument for `{:s}`.

## Findings

| source | as written | input that shows it | evidently intended | confidence | as-written member | corrected member |
|---|---|---|---|---|---|---|
| geiger_counter.py:46-47 (and web_geiger_counter.py:76-77) | `currentMillis = ticks_diff(ticks_ms(), startMillis)` is a signed difference modulo 2^30. It never reaches 2^29 ms (about 6.2 days) after start, and past that it wraps to negative values. | A window closes at 2^29 − 1 ms after start. A poll 20000 ms later sees `currentMillis` negative, so `currentMillis - previousMillis > LOG_PERIOD` is false, and no later poll can fire: cpm stays frozen. | The window fires whenever more than LOG_PERIOD has really passed since the last window, at any uptime, provided consecutive clock readings are less than 2^29 ms (about 6.2 days) apart. | not executed | RateWindow.StartRelativeWindowFreezes | RateWindow.UptimePollFiresOnElapsed |

The corrected behaviour takes the elapsed time from `Ticks.UptimeClock`,
which adds up the tick difference between consecutive readings. The
corrected pass is `RateWindow.Estimator.PollClock`; the display loop as
written is `RateWindow.Estimator.PollSinceStart`. It needs the clock to be
read at least once every 2^29 ms. The display loop polls continuously, so it
meets that need. The web loop reads the clock only after `accept()` returns, so
an idle gap of more than 2^29 ms between connections would still misread
the elapsed time.
