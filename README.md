# Pulmote-ESP firmware core in Dafny

This project models four parts of the Pulmote-ESP firmware for the ESP32 and proves properties of each:

- **the WiFi manager.** It handles boot into station mode or the provisioning access point, the 40-poll connect loop, and the per-tick policy: AP hand-off, AP timeout restart, and debounced reconnects. It also covers credential persistence and the parsing of the configuration page's save request.
- **the captive-portal DNS responder.** It turns every query into a reply that points at the portal.
- **the appliance table.**
- **the infrared repeater loop.**

Each part is modelled in the form of its source:

- State that the C++ updates in place is a Dafny `class` with `modifies` clauses. This covers the WiFi manager, the DNS server, the device table (a ten-slot array plus a count) and the repeater's globals.
- Loops are `while`/`for` loops with invariants. These are the connect polling, the linear searches, the left shift on removal, the scenario loop and the byte copies into the 512-byte DNS buffer.
- Each method is proved against pure functions that say what it computes (`AnswerFor`, `FirstIndex`, `RemoveFirst`, `ScenarioCommands`, `AfterSave`, `StoredCredentials`, `ExtractField`, `AttemptsMade`, `SendIR`). The properties the firmware relies on are lemmas or `ensures` clauses on those functions.

Files:

- `arduino.dfy` (module `Arduino`): the runtime facts the firmware depends on.
  - The 32-bit `millis()` clock and its wrapping differences. `Firings` models a timer that is re-armed on every firing.
  - `strncpy` into a zero-filled buffer.
  - `indexOf`/`substring` of the ESP32 core's `String`. A search from past the end gives -1. `substring` swaps reversed bounds and clamps the upper one. -1 passed as an `unsigned int` is 2^32 - 1.
- `dns_server.dfy` (module `DnsServer`): lib/DNSServer/DNSServer.cpp.
- `device_manager.dfy` (module `DeviceManager`): src/device_manager.cpp.
- `wifi_manager.dfy` (module `WifiManager`): src/wifi_manager.cpp.
- `ir_repeater.dfy` (module `IrRepeater`): the logic of src/main.cpp.

Hardware and library calls become inputs:

- **WiFi status.** A read of the WiFi status is a boolean. During `connect` the successive reads are a function `linkAt: nat -> bool`.
- **Clock.** A read of `millis()` is a `Millis` value.
- **Outcomes.** The results of `preferences.begin`, `WiFi.softAP` and the UDP bind are booleans.
- **Flash store.** The flash namespace is a map from keys to texts or numbers. As with the ESP32 `Preferences` library, a store that failed to open answers every read as empty and ignores every write.
- **DNS traffic.** A UDP datagram is a value. A DNS reply is returned rather than sent.
- **Restarts.** A restart is a returned flag or action.
- **IR output.** The IR library calls are a returned list of effects.

**Constants not visible in the source.** These are constructor parameters:

- the sizes of the `ssid` and `password` character arrays;
- `ap_timeout`;
- `AP_IP`.

The old header include/wifi_manager.h no longer matches the class, but its `reconnect_interval` of 10000 ms is used.

**Behaviour of the code worth knowing:**

- **Save body without the markers.** A save body without the `"ssid":"` marker is not rejected as empty: `indexOf` returns -1 and the field is then read from offset 7. So the body `{"network":"home"}` saves the ssid `rk` with an empty password and restarts (`MissingMarkerExample`).
- **AP timeout.** The restart test is a strict `>`: the AP restarts only once strictly more than `ap_timeout` ms have passed since it started, not at start + timeout (`ApExpiredExactly`).
- **No echo to the short-range radio.** `handleSaveConfig` replies only over HTTP; a successful save is not reported on the BLE channel.
- **DNS header comments.** The comments in the DNS responder call bytes 7 and 9 QDCOUNT and ANCOUNT. In the header layout of section 4.1.1 of RFC 1035 they are the low bytes of ANCOUNT and NSCOUNT, and QDCOUNT is kept from the query.
- **Copied question section.** The copy of the question section includes QTYPE and QCLASS. A resolver reading the answer record at offset `packetSize` therefore sees the query's QTYPE as TYPE, a TTL of 65537 and an RDLENGTH of 0 (`AnswerRecordAsRead`). The model reproduces these bytes exactly.

## Model

| member | source | states |
|---|---|---|
| Arduino.Elapsed | src/wifi_manager.cpp:306 | `now - since` in `unsigned long` arithmetic. It is the plain difference without a wrap and `2^32 - since + now` across one. |
| Arduino.ElapsedBetween | src/wifi_manager.cpp:293 | For real times less than one clock wrap apart, the wrapped difference equals the real elapsed time. |
| Arduino.FiringsSpaced | src/wifi_manager.cpp:304-310 | A `millis() - last >= gap` timer re-armed on each firing fires only at checks. It fires first at least `gap` after `last`, then at least `gap` apart each time, over any run and any number of clock wraps. `RetryTimesAreFirings` and `TakenTimesAreFirings` show that `handleReconnect`'s retries (gap 10000) and `loop`'s captures (gap 301) are such timers. |
| Arduino.Truncate | src/device_manager.cpp:26 | `strncpy` of at most `count` characters into a zeroed buffer. The result is the longest prefix of at most `count` characters: the whole string when it fits, exactly `count` characters otherwise. |
| Arduino.IndexOf | src/wifi_manager.cpp:139 | `String::indexOf(pattern)` is -1 or the first occurrence of the pattern, with no occurrence before it. |
| Arduino.IndexOfFrom | src/wifi_manager.cpp:140 | `String::indexOf(pattern, from)` is -1 or an occurrence at or after `from`, with no earlier occurrence from `from` on. |
| Arduino.Substring | src/wifi_manager.cpp:141 | `String::substring(l, r)`: the slice between the bounds in either order, clamped to the length, and empty from past the end. |
| DnsServer.AnswerFor | lib/DNSServer/DNSServer.cpp:24-46 | The reply has length `2n+2`. The ID is kept. QR and RA are set with the other flag bits kept. Bytes 7 and 9 are 1 and the other header bytes are kept. The question section is kept, then copied once more. Then come TYPE A, CLASS IN, TTL 60, RDLENGTH 4 and the four address octets. |
| DnsServer.AnswerIgnoresName | lib/DNSServer/DNSServer.cpp:43-46 | Two queries of equal length get the same four address bytes at the same place, whatever name they ask for. |
| DnsServer.AnswerRecordAsRead | lib/DNSServer/DNSServer.cpp:29-42 | The record at offset `packetSize` reads as TYPE = the query's QTYPE, CLASS = its QCLASS, TTL bytes `00 01 00 01` and RDLENGTH `00 00`. |
| DnsServer.AsWrittenWrites | lib/DNSServer/DNSServer.cpp:20-46 | The offsets the original writes: bytes 2, 3, 7 and 9 of the header, the `memcpy` range of length `packetSize - 12` taken as a 32-bit `size_t`, and the fourteen trailer bytes. For sizes that fit, this is the four header bytes plus every offset from `packetSize` to `2*packetSize + 1`. |
| DnsServer.AsWrittenStaysInBuffer | lib/DNSServer/DNSServer.cpp:20-46 | Every offset the original writes lies inside the 512-byte buffer if and only if `12 <= packetSize` and `2*packetSize + 2 <= 512`. |
| DnsServer.DNSServer.constructor | lib/DNSServer/DNSServer.h:17 | A new server is not started. |
| DnsServer.DNSServer.Start | lib/DNSServer/DNSServer.cpp:3-11 | Port and address are stored even when the bind fails. The server becomes started exactly when the bind succeeds. The result is the bind's outcome. |
| DnsServer.DNSServer.Stop | lib/DNSServer/DNSServer.cpp:53-57 | Clears `started` and keeps the port and address. |
| DnsServer.DNSServer.ProcessNextRequest | lib/DNSServer/DNSServer.cpp:13-51 | There is a reply if and only if the server is started, a datagram is pending and it fits the buffer. The reply is `AnswerFor(query, resolvedIP)`, sent back to the query's peer address and port. |
| DnsServer.DNSServer.ReadAndMarkHeader | lib/DNSServer/DNSServer.cpp:20-27 | After the read and the four header writes, the first `packetSize` buffer bytes are those of the reply. |
| DnsServer.DNSServer.CopyQuestion | lib/DNSServer/DNSServer.cpp:29-31 | After the `memcpy`, the first `2*packetSize - 12` buffer bytes are those of the reply. |
| DnsServer.DNSServer.WriteTrailer | lib/DNSServer/DNSServer.cpp:32-46 | The fourteen `idx++` writes place the fixed record fields and the address, and leave the earlier bytes alone. |
| DeviceManager.FirstIndex | src/device_manager.cpp:59-67 | The position of the first entry with the id, or -1 when no entry has it. |
| DeviceManager.RemoveFirst | src/device_manager.cpp:218-237 | Removal shortens the table by one exactly when the id is present. |
| DeviceManager.RemoveFirstSplices | src/device_manager.cpp:220-229 | Removal cuts out exactly the first matching entry and keeps the others in order. A table without the id is unchanged. |
| DeviceManager.RemoveFirstKeepsOthers | src/device_manager.cpp:225-229 | The table after removal plus the removed entry is the old table, as a multiset. |
| DeviceManager.RemoveFirstKeepsInactive | src/device_manager.cpp:225-228 | Removal never makes an all-inactive table hold an active device. |
| DeviceManager.ScenarioCommands | src/device_manager.cpp:160-168 | "away" powers off every entry, in table order, one command per entry. |
| DeviceManager.DeviceManager.constructor | include/device_manager.h:54-55 | Ten zeroed slots, none in use. |
| DeviceManager.DeviceManager.Init | src/device_manager.cpp:10-14 | The table becomes empty. |
| DeviceManager.DeviceManager.AddDevice | src/device_manager.cpp:16-54 | A full table fails and changes nothing. Otherwise the device is appended inactive, with its name cut to 31 characters, and no other slot changes. Duplicate ids are accepted. An all-inactive table stays all-inactive. |
| DeviceManager.DeviceManager.SendCommand | src/device_manager.cpp:56-75 | The command reaches the first device with the id, or none when no device has it. The table is not changed. |
| DeviceManager.DeviceManager.GetDeviceStatus | src/device_manager.cpp:129-139 | The result is `is_active` of the first device with the id, or false when there is none. It is therefore always false on an all-inactive table. |
| DeviceManager.DeviceManager.ExecuteScenario | src/device_manager.cpp:141-173 | The `sendCommand` calls made. "movie" gives (3, off), (2, temp down). "sleep" gives off to 1, 2 and 3. "away" gives off to every entry in order. Anything else gives none. |
| DeviceManager.DeviceManager.RemoveDevice | src/device_manager.cpp:218-237 | The result is true exactly when the id is present. The table becomes `RemoveFirst` of the old one and the count drops by one. The slot that falls out of use keeps a copy of the old last entry. Slots beyond the count are unchanged. |
| DeviceManager.DeviceManager.ShiftOut | src/device_manager.cpp:225-229 | The left shift overwrites slot `i`, moves the later entries down in order and decrements the count. |
| WifiManager.StoredCredentials | src/wifi_manager.cpp:57-63 | Credentials load exactly when the store holds a non-empty text under `ssid`. They are then the stored `ssid` and the stored `password`, or "" when there is no password. |
| WifiManager.AfterSave | src/wifi_manager.cpp:73-77 | Save then load is a round trip. After saving `(s, p)` with non-empty `s`, the stored credentials are exactly `(s, p)`. With an empty `s` there are none. `saved_time` holds the clock. Every other key is kept. |
| WifiManager.ExtractField | src/wifi_manager.cpp:139-145 | The field contains no quote. It is the longest quote-free text starting right after the marker's first occurrence (`indexOf + |marker|`). A missing marker shifts the start to `|marker| - 1`, and a start past the end gives "". |
| WifiManager.ParseSaveBody | src/wifi_manager.cpp:139-145 | Each field is read with its own marker by `ExtractField`, so neither parsed field ever contains a quote. |
| WifiManager.ParseSaveBodyRoundTrip | src/wifi_manager.cpp:139-145 | The body the configuration page posts for `(s, p)` without quotes, backslashes or control characters parses back to exactly `(s, p)`. |
| WifiManager.MissingMarkerExample | src/wifi_manager.cpp:139-145 | `{"network":"home"}` parses to ssid "rk" and password "". It is not rejected. |
| WifiManager.ReconnectDueExactly | src/wifi_manager.cpp:304-310 | Within one clock wrap, a retry is due exactly when at least 10000 ms have really passed since the last one. |
| WifiManager.RetryTimesAreFirings | src/wifi_manager.cpp:304-310 | Over a run of station-mode ticks with the link down, the ticks at which `handleReconnect` retries are exactly the firings of a re-armed timer with a 10000 ms gap. |
| WifiManager.RetriesSpaced | src/wifi_manager.cpp:304-310 | Those retries happen only at ticks, the first at least 10000 ms after the last retry and each later one at least 10000 ms after the one before, across clock wraps. |
| WifiManager.ApExpiredExactly | src/wifi_manager.cpp:293-298 | Within one clock wrap, the AP restart fires exactly when strictly more than `ap_timeout` ms have really passed since the AP started. |
| WifiManager.AttemptsMade | src/wifi_manager.cpp:224-230 | The connect loop waits at most 40 times. It stops at the first read that shows a link and never earlier. |
| WifiManager.ConnectSucceeds | src/wifi_manager.cpp:232 | `connect` succeeds only if one of the first 42 status reads shows a link. For a link that stays up once it is up, it succeeds exactly when the link comes up within those reads. |
| WifiManager.WiFiManager.constructor | src/wifi_manager.cpp:9-13 | Empty buffers, both flags clear, both times 0, no web server, a stopped DNS server. |
| WifiManager.WiFiManager.CopyCredentials | src/wifi_manager.cpp:154-155 | Both buffers receive their string cut to capacity - 1 and keep their terminator. Nothing else changes. |
| WifiManager.WiFiManager.LoadConfigFromNVS | src/wifi_manager.cpp:55-71 | With an open store holding a non-empty `ssid`, the call succeeds and the buffers receive the stored pair, cut to fit. Otherwise, including a missing key, the call fails and nothing changes. |
| WifiManager.WiFiManager.SaveConfigToNVS | src/wifi_manager.cpp:73-79 | An open store becomes `AfterSave` of the old one. A store that failed to open is untouched. The buffers are untouched. |
| WifiManager.WiFiManager.HandleSaveConfig | src/wifi_manager.cpp:129-161 | No body gives 400 `{"success":false}`. An empty parsed ssid gives 400 with "Empty". In both cases the store and buffers are unchanged and there is no restart. A non-empty ssid stores both fields and the clock, copies them into the buffers cut to fit, replies 200 `{"success":true}` and restarts. |
| WifiManager.WiFiManager.StartAPMode | src/wifi_manager.cpp:174-197 | AP mode and its start time are set even when the soft AP fails. Only on success are the web server created and the DNS server started on port 53, resolving to the AP's address. |
| WifiManager.WiFiManager.StopAPMode | src/wifi_manager.cpp:199-215 | Leaves AP mode and drops the web server. It does nothing outside AP mode and leaves the DNS server running. |
| WifiManager.WiFiManager.WaitForLink | src/wifi_manager.cpp:224-230 | The wait loop makes exactly `AttemptsMade` waits. |
| WifiManager.WiFiManager.Connect | src/wifi_manager.cpp:217-248 | The result is the read after the loop. The station flag equals the result. On success the credentials are copied in, cut to fit. On failure the buffers keep their contents. |
| WifiManager.WiFiManager.Init | src/wifi_manager.cpp:15-53 | The store is open if it was or `begin` succeeds. AP mode is entered exactly when there are no usable saved credentials or the connect fails. Otherwise the station flag is set. Saved credentials are loaded into the buffers. The retry time is reset to 0. The DNS server is started on port 53 with the AP address only when the AP comes up; otherwise its port, address and state are unchanged. |
| WifiManager.WiFiManager.HandleReconnect | src/wifi_manager.cpp:283-317 | In AP mode, a live link stops the AP and never restarts on that tick. Without a link, a restart happens exactly when the AP has run strictly longer than the timeout. In station mode, a lost link is retried, and the retry time set to now, exactly when 10000 ms have passed in wrapping arithmetic. A live link only sets the station flag. |
| WifiManager.WiFiManager.GetLocalIP | src/wifi_manager.cpp:260-267 | The station address only when both the flag and the link say connected, else 0.0.0.0. |
| WifiManager.WiFiManager.HandleWebServer | src/wifi_manager.cpp:319-326 | A DNS reply comes back only in AP mode with the web server up, and then exactly as `ProcessNextRequest` gives it: `AnswerFor` of the query, addressed to the query's peer address and port. |
| WifiManager.WiFiManager.ClearConfig | src/wifi_manager.cpp:339-344 | Empties an open store and both buffers. Afterwards no credentials load. |
| IrRepeater.IsValidSignal | src/main.cpp:31-48 | A signal is kept if and only if its protocol is known, it has at least 8 bits, and it is not the NEC repeat code `0xFFFFFFFF`. The NEC 0-bit test is subsumed. |
| IrRepeater.SendIR | src/main.cpp:50-83 | Reception is disabled, then exactly one transmission is made, then reception is re-enabled. The transmission uses the protocol's encoder with value and bits for NEC, Sony, RC5 and RC6, and a raw 38 kHz send of the timings for every other protocol. |
| IrRepeater.CapturesExactly | src/main.cpp:92-95 | Within one clock wrap, a valid signal is taken exactly when strictly more than 300 ms have passed since the last one taken. |
| IrRepeater.TakenTimesAreFirings | src/main.cpp:92-103 | Over a run of passes that decode valid signals, the passes that take their signal are exactly the firings of a re-armed timer with a 301 ms gap. |
| IrRepeater.CapturesSpaced | src/main.cpp:92-103 | Signals taken over a run are taken only at decode times, the first more than 300 ms after the last one taken and each later one more than 300 ms after the one before, across clock wraps. |
| IrRepeater.Repeater.constructor | src/main.cpp:16-20 | No signal, flag clear, both times 0. |
| IrRepeater.Repeater.Loop | src/main.cpp:85-115 | A decoded signal always resumes the receiver. It is taken, setting the last signal, the flag and the receive time, exactly when it is valid and arrives strictly more than 300 ms after the last one. Otherwise those three are unchanged. The flag is never cleared. A resend, `sendIR` of the last signal followed by updating the send time, happens exactly when a signal has been taken and at least 2000 ms have passed. |

## Left out

- WifiManager.WiFiManager.HandleWebServer: models only the DNS half. `web_server->handleClient()` is left out: it dispatches HTTP requests to the page, scan, save and status handlers. Of those, only the save handler is modelled, as `HandleSaveConfig`.
- `handleRoot`, `handleScanNetworks`, `handleStatus` and `scanNetworks` are not modelled. They produce static HTML, or JSON built from radio data. The scan JSON does not escape SSIDs.
- `initWebServer` is modelled only as the `webServerUp` flag. Route registration and the HTTP server are library code.
- `isConnected` and `isAPMode` are not modelled separately. The first is the `linkUp` input and the second is the `isApMode` field.
- `disconnect`, `getAPSSID` and the destructor are not modelled. They are outside the modelled state machine.
- The radio calls are not recorded. This covers `WiFi.mode`, `WiFi.begin`, `setAutoReconnect`, `persistent` and `softAPConfig`. `WiFi.reconnect` is recorded only as the `Reconnect` tick action.
- Serial output, `delay` and the time that passes during the connect loop are not modelled. `Init` takes the clock reading at the moment the AP starts as an input.
- What happens after `ESP.restart()` is outside the model. The restart is a returned flag or action.
- Strings are byte strings: a Dafny `char` stands for one byte of the C string, that is one UTF-8 code unit, and lengths, `indexOf` offsets and `strncpy` truncation (`Truncate`) count bytes. A name of multi-byte characters is therefore a longer `string` than it has characters. The model does not encode or decode UTF-8.
- WifiManager.WiFiManager.Init: `init` passes the `ssid` and `password` members to `connect`, whose `strncpy` then copies each buffer onto itself. C leaves overlapping `strncpy` undefined; the model treats it as a plain copy, which leaves the buffers as they were.
- Strings are modelled without NUL characters. In the original, a NUL inside the body or a stored string would cut it short at the `c_str()`/`strncpy` boundary.
- WifiManager.GetString: the `Preferences` library's size limits on stored strings and its failure to write are not modelled. An open store always accepts the write.
- `listDevices` is left out: it only prints.
- For `sendCommand`, only the lookup is modelled. The command-name table and the printed message are not.
- DnsServer.DNSServer.ProcessNextRequest: this is the corrected operation (see Findings). `_udp.read(buffer, 512)` truncates packets longer than 512 bytes, and the guard drops such packets anyway. UDP send failures are not modelled.
- DnsServer.AsWrittenWrites: the model takes the `memcpy` length to be the ESP32's 32-bit `size_t`. A negative `qlen` therefore becomes a length near 2^32.
- IrRepeater.Signal: the raw timings are taken as captured values. In the library, `rawbuf` points into the receiver's buffer, which later receptions reuse. That aliasing is not modelled, and neither is the unit of the timings passed to `sendRaw`.
- IrRepeater.DecodeType: the library's other protocol codes are folded into `OtherProtocol`.
- `setup`, the text output of `resultToHumanReadableBasic`, and the BLE, MQTT and IR-manager modules are not part of this model.

## Findings

| source | as written | input that shows it | evidently intended | confidence | as-written member | corrected member |
|---|---|---|---|---|---|---|
| lib/DNSServer/DNSServer.cpp:17-46 | The reply is written into `uint8_t buffer[512]` up to offset `2*packetSize + 1` without checking `packetSize`. An `int qlen = packetSize - 12` below zero is passed to `memcpy` as a huge length. | A 256-byte query makes it write offset 513. An 11-byte datagram makes `memcpy` copy 2^32 - 1 bytes. | Answer only queries with a full header whose reply fits: `12 <= packetSize` and `2*packetSize + 2 <= 512`. Drop the rest. | high (not executed) | DnsServer.AsWrittenStaysInBuffer | DnsServer.DNSServer.ProcessNextRequest |
